/**
 The sliding window limited by number and by age, and the cyclic store behind its data
 pointers (src/lib/lib_puffers.c).

 The plugin list is represented by `log`: the pipe calls that every attached plugin has
 received, in order.
 */
module SlidingWindows {
  import opened Options
  import opened TreeShape
  import opened Events
  import opened Puffers

  /** The store of int32 values: one cell more than the window may hold. */
  class Storage {
    const cells: array<int>
    var index: int

    ghost predicate Valid()
      reads this
    {
      0 <= index < cells.Length
    }

    constructor (numLimit: nat)
      ensures Valid() && fresh(cells) && cells.Length == numLimit + 1 && index == 0
    {
      cells := new int[numLimit + 1];
      index := 0;
    }

    /** Copies the value into the next cell and returns its address; every other cell keeps
        its value. */
    method Store(value: int) returns (addr: nat)
      requires Valid()
      modifies this, cells
      ensures Valid()
      ensures addr == old(index) && cells[..] == old(cells[..])[addr := value]
      ensures index == if addr + 1 == cells.Length then 0 else addr + 1
    {
      addr := index;
      cells[addr] := value;
      index := index + 1;
      if index == cells.Length {
        index := 0;
      }
    }
  }

  /** A tracked item: its data pointer and the time it was pushed, in milliseconds. */
  datatype Item = Item(data: Ref, pushed: int)

  ghost function DataOf(items: seq<Item>): seq<Ref> {
    seq(|items|, i requires 0 <= i < |items| => items[i].data)
  }

  predicate Young(item: Item, timeLimit: real, now: int) {
    timeLimit == 0.0 || (now - item.pushed) as real < timeLimit
  }

  /** A window that respects both limits. */
  ghost predicate Fits(w: seq<Item>, numLimit: int, timeLimit: real, now: int) {
    |w| <= numLimit && forall i :: 0 <= i < |w| ==> Young(w[i], timeLimit, now)
  }

  function Last(h: seq<Item>, k: int): seq<Item>
    requires 0 <= k <= |h|
  {
    h[|h| - k..]
  }

  predicate IsEnd(w: seq<Item>, before: seq<Item>) {
    |w| <= |before| && w == Last(before, |w|)
  }

  function Dropped(before: seq<Item>, w: seq<Item>): seq<Item>
    requires IsEnd(w, before)
  {
    before[..|before| - |w|]
  }

  /** `w` is the longest suffix of `h` that respects the limits. */
  ghost predicate LongestFit(w: seq<Item>, h: seq<Item>, numLimit: int, timeLimit: real, now: int) {
    && |w| <= |h| && w == Last(h, |w|)
    && Fits(w, numLimit, timeLimit, now)
    && forall k :: |w| < k <= |h| ==> !Fits(Last(h, k), numLimit, timeLimit, now)
  }

  ghost predicate PushedInOrder(h: seq<Item>, now: int) {
    && (forall i, j :: 0 <= i < j < |h| ==> h[i].pushed <= h[j].pushed)
    && (forall i :: 0 <= i < |h| ==> h[i].pushed <= now)
  }

  class SlidingWindow {
    const trackeditems: Puffer<Item>
    const storage: Storage
    const numLimit: int
    const timeLimit: real
    var log: seq<Event>
    /** The latest clock reading; the clock may move on from one reading to the next. */
    var clock: int
    /** Everything added since the last clear. */
    ghost var history: seq<Item>

    ghost function Footprint(): set<object>
      reads this, trackeditems
    {
      {this, trackeditems, trackeditems.items, storage, storage.cells}
    }

    /** The cell of the `i`-th tracked item, counted back from the cell written next. */
    ghost function Cell(i: int): int
      reads trackeditems, storage
    {
      var c := storage.index - |trackeditems.contents| + i;
      if c < 0 then c + storage.cells.Length else c
    }

    /** The oldest item is no longer wanted: there is none, or the window is full up to
        one place, or it is too old. */
    ghost predicate Blocked(limit: int)
      reads this, trackeditems
    {
      var w, h := trackeditems.contents, history;
      |w| == |h| || |w| >= limit || (|w| < |h| && !Young(h[|h| - |w| - 1], timeLimit, clock))
    }

    /** The tracked pointers are consecutive cells that still hold their values. */
    ghost predicate CellsIntact()
      reads trackeditems, storage, storage.cells
    {
      var w := trackeditems.contents;
      && storage.Valid() && |w| < storage.cells.Length
      && forall i :: 0 <= i < |w| ==> w[i].data.addr == Cell(i) < storage.cells.Length && storage.cells[Cell(i)] == w[i].data.key
    }

    /** Sound parts, plugins that know what is tracked, and a window that is an end of the
        history. */
    ghost predicate Shape()
      reads this, trackeditems, trackeditems.items, storage, storage.cells
    {
      var w, h := trackeditems.contents, history;
      && trackeditems.Valid() && CellsIntact()
      && 0 < numLimit == trackeditems.items.Length && storage.cells.Length == numLimit + 1 && timeLimit >= 0.0
      && trackeditems.items as object != storage.cells
      && Fifo(log) && Live(log) == DataOf(w)
      && |w| <= |h| && w == Last(h, |w|) && PushedInOrder(h, clock)
    }

    ghost predicate Valid()
      reads this, trackeditems, trackeditems.items, storage, storage.cells
    {
      Shape() && Blocked(numLimit - 1)
    }

    constructor (num: nat, timeLimit: real)
      requires timeLimit >= 0.0
      ensures Valid() && fresh(Footprint()) && log == [] && trackeditems.contents == []
      ensures numLimit == (if num == 0 then 32 else num) && this.timeLimit == timeLimit
    {
      var limit := if num == 0 then 32 else num;
      trackeditems := new Puffer<Item>(limit);
      storage := new Storage(limit);
      numLimit := limit;
      this.timeLimit := timeLimit;
      log := [];
      history, clock := [], 0;
    }

    lemma LogIsFifo()
      requires Valid()
      ensures Fifo(log)
    {
    }

    /** A pointer to a tracked item still leads to its value. */
    lemma TrackedPointer(r: Ref)
      requires Shape() && r in DataOf(trackeditems.contents)
      ensures r.addr < storage.cells.Length && storage.cells[r.addr] == r.key
    {
      var i :| 0 <= i < |trackeditems.contents| && DataOf(trackeditems.contents)[i] == r;
      assert trackeditems.contents[i].data == r;
    }

    /** Evicts the oldest item: every rem pipe gets its data. */
    method Rem()
      requires Shape() && trackeditems.contents != []
      modifies this, trackeditems, trackeditems.items
      ensures Shape() && trackeditems.items == old(trackeditems.items)
      ensures trackeditems.contents == old(trackeditems.contents)[1..]
      ensures log == old(log) + [Removed(old(trackeditems.contents)[0].data)]
      ensures history == old(history) && clock == old(clock)
    {
      LiveExtend(log, Removed(trackeditems.contents[0].data));
      var item := trackeditems.Read();
      assert CellsIntact();
      log := log + [Removed(item.value.data)];
    }

    /** What is tracked now is the end of what was tracked at `before`, and the plugins
        have been told of the rest, oldest first. */
    ghost predicate Evicted(before: seq<Item>, logBefore: seq<Event>)
      reads this, trackeditems
    {
      IsEnd(trackeditems.contents, before) && log == logBefore + Removals(Dropped(before, trackeditems.contents))
    }

    /** One more eviction. */
    lemma EvictedStep(before: seq<Item>, logBefore: seq<Event>, w: seq<Item>)
      requires w != [] && IsEnd(w, before)
      requires trackeditems.contents == w[1..]
      requires log == logBefore + Removals(Dropped(before, w)) + [Removed(w[0].data)]
      ensures Evicted(before, logBefore)
    {
      var k := |before| - |w|;
      assert before[..k + 1] == before[..k] + [w[0]];
      assert Removals(before[..k + 1]) == Removals(before[..k]) + [Removed(w[0].data)];
    }

    /** An eviction leaves the window blocked: the item was too old or the window full. */
    lemma BlockedAfter(w: seq<Item>, limit: int)
      requires 0 < |w| <= |history| && w == Last(history, |w|) && trackeditems.contents == w[1..]
      requires !Young(w[0], timeLimit, clock) || |w| > limit
      ensures Blocked(limit)
    {
    }

    /** Reads the clock, which never runs backwards. */
    method ReadClock() returns (now: int)
      requires Valid()
      modifies `clock
      ensures Valid() && old(clock) <= now == clock
    {
      var step: int := *;
      now := clock + if step < 0 then 0 else step;
      StillBlocked(now);
      clock := now;
    }

    /** What was pushed before, or was too old, still is. */
    lemma StillBlocked(now: int)
      requires PushedInOrder(history, clock) && Blocked(numLimit - 1) && clock <= now
      ensures PushedInOrder(history, now)
      ensures var w, h := trackeditems.contents, history;
              |w| == |h| || |w| >= numLimit - 1 || (|w| < |h| && !Young(h[|h| - |w| - 1], timeLimit, now))
    {
    }

    /** Reads the clock once for every item that it looks at. */
    method ObsolateTimeLimit()
      requires Valid()
      modifies this, trackeditems, trackeditems.items
      ensures Valid() && old(clock) <= clock && history == old(history) && trackeditems.items == old(trackeditems.items)
      ensures Evicted(old(trackeditems.contents), old(log))
      ensures forall i :: 0 <= i < |trackeditems.contents| ==> Young(trackeditems.contents[i], timeLimit, clock)
    {
      hide Live, Fifo, DataOf, LongestFit, Fits, Removals, Last, PushedInOrder, Young, SlidingWindow.CellsIntact, SlidingWindow.Blocked;
      NoRemovals(trackeditems.contents);
      if timeLimit == 0.0 {
        AllYoung(trackeditems.contents, history, timeLimit, clock);
        return;
      }
      while true
        invariant Valid() && old(clock) <= clock && history == old(history) && trackeditems.items == old(trackeditems.items)
        invariant Evicted(old(trackeditems.contents), old(log))
        decreases |trackeditems.contents|
      {
        var item := trackeditems.PeekFirst();
        if item == None { return; }
        var now := ReadClock();
        if Young(item.value, timeLimit, now) {
          AllYoung(trackeditems.contents, history, timeLimit, now);
          return;
        }
        ghost var w := trackeditems.contents;
        Rem();
        BlockedAfter(w, numLimit - 1);
        EvictedStep(old(trackeditems.contents), old(log), w);
      }
    }

    method ObsolateNumLimit()
      requires Valid()
      modifies this, trackeditems, trackeditems.items
      ensures Valid() && clock == old(clock) && history == old(history) && trackeditems.items == old(trackeditems.items)
      ensures Evicted(old(trackeditems.contents), old(log))
      ensures |trackeditems.contents| < numLimit
    {
      hide Live, Fifo, DataOf, LongestFit, Fits, Removals, Last, PushedInOrder, Young, SlidingWindow.CellsIntact, SlidingWindow.Blocked;
      NoRemovals(trackeditems.contents);
      while trackeditems.IsFull()
        invariant Valid() && clock == old(clock) && history == old(history) && trackeditems.items == old(trackeditems.items)
        invariant Evicted(old(trackeditems.contents), old(log))
        decreases |trackeditems.contents|
      {
        ghost var w := trackeditems.contents;
        Rem();
        BlockedAfter(w, numLimit - 1);
        EvictedStep(old(trackeditems.contents), old(log), w);
      }
    }

    /** Evicts whatever is too old, and then the oldest while the window is full. */
    method Refresh()
      requires Valid()
      modifies this, trackeditems, trackeditems.items
      ensures Valid() && old(clock) <= clock && history == old(history) && trackeditems.items == old(trackeditems.items)
      ensures Evicted(old(trackeditems.contents), old(log))
      ensures LongestFit(trackeditems.contents, history, numLimit - 1, timeLimit, clock)
      ensures |trackeditems.contents| < numLimit
    {
      hide Live, Fifo, DataOf, Removals, Fits, LongestFit, Last, IsEnd, Dropped, PushedInOrder, Young, SlidingWindow.CellsIntact, SlidingWindow.Blocked;
      ObsolateTimeLimit();
      ghost var w := trackeditems.contents;
      ghost var logAfter := log;
      ObsolateNumLimit();
      EvictedTwice(old(trackeditems.contents), old(log), w, logAfter);
      RefreshedFits(w, trackeditems.contents, numLimit - 1, timeLimit, clock);
      LongestNow();
    }

    lemma LongestNow()
      requires Valid() && Fits(trackeditems.contents, numLimit - 1, timeLimit, clock)
      ensures LongestFit(trackeditems.contents, history, numLimit - 1, timeLimit, clock)
    {
      BlockedIsLongest(trackeditems.contents, history, numLimit - 1, timeLimit, clock);
    }

    lemma EvictedTwice(before: seq<Item>, logBefore: seq<Event>, w: seq<Item>, logAfter: seq<Event>)
      requires IsEnd(w, before) && logAfter == logBefore + Removals(Dropped(before, w))
      requires Evicted(w, logAfter)
      ensures Evicted(before, logBefore)
    {
      var v := trackeditems.contents;
      assert before[..|before| - |v|] == before[..|before| - |w|] + w[..|w| - |v|];
      assert Removals(before[..|before| - |v|]) == Removals(before[..|before| - |w|]) + Removals(w[..|w| - |v|]);
    }

    /** Evicts everything; the history starts afresh. */
    method Clear()
      requires Valid()
      modifies this, trackeditems, trackeditems.items
      ensures Valid() && clock == old(clock) && history == [] && trackeditems.items == old(trackeditems.items)
      ensures trackeditems.contents == [] && Evicted(old(trackeditems.contents), old(log))
    {
      hide Live, Fifo, DataOf, LongestFit, Fits, Removals, Last, PushedInOrder, Young, SlidingWindow.CellsIntact;
      NoRemovals(trackeditems.contents);
      while !trackeditems.IsEmpty()
        invariant Shape() && clock == old(clock) && trackeditems.items == old(trackeditems.items)
        invariant Evicted(old(trackeditems.contents), old(log))
        decreases |trackeditems.contents|
      {
        ghost var w := trackeditems.contents;
        Rem();
        EvictedStep(old(trackeditems.contents), old(log), w);
      }
      history := [];
      EmptyWindow(clock);
    }

    /** Adds a value: the window becomes the longest end of the history that respects both
        limits, and the plugins hear of every eviction, in order, and then of the value.
        `seen` is the last reading of the clock that evicting goes by; the value is stamped
        with a later one. */
    method AddData(value: int) returns (ghost seen: int)
      requires Valid()
      modifies this, trackeditems, trackeditems.items, storage, storage.cells
      ensures Valid() && old(clock) <= seen <= clock && trackeditems.items == old(trackeditems.items)
      ensures var w := trackeditems.contents;
              && w != [] && w[|w| - 1].data.key == value && w[|w| - 1].pushed == clock
              && history == old(history) + [w[|w| - 1]]
              && LongestFit(w, history, numLimit, timeLimit, seen)
              && IsEnd(w[..|w| - 1], old(trackeditems.contents))
              && log == old(log) + Removals(Dropped(old(trackeditems.contents), w[..|w| - 1])) + [Added(w[|w| - 1].data)]
    {
      hide Live, Fifo, DataOf, Removals, Fits, LongestFit, Last, IsEnd, Dropped, PushedInOrder, Young, SlidingWindow.CellsIntact, SlidingWindow.Blocked;
      Refresh();
      seen := clock;
      ghost var w, h := trackeditems.contents, history;
      var now := ReadClock();
      Track(value, now);
      AddedIsLongest(w, h, trackeditems.contents[|w|], numLimit, timeLimit, seen);
    }

    method Track(value: int, now: int)
      requires Valid() && clock == now && |trackeditems.contents| < numLimit
      modifies this, trackeditems, trackeditems.items, storage, storage.cells
      ensures Valid() && clock == now && trackeditems.items == old(trackeditems.items)
      ensures exists item: Item :: item.data.key == value && item.pushed == now
                && trackeditems.contents == old(trackeditems.contents) + [item]
                && history == old(history) + [item]
                && log == old(log) + [Added(item.data)]
    {
      hide Live, Fifo, DataOf, Fits, LongestFit, Last, PushedInOrder, Removals;
      TrackedEnd(trackeditems.contents, history, Item(Ref(storage.index, value), now));
      var addr := storage.Store(value);
      var item := Item(Ref(addr, value), now);
      LiveExtend(log, Added(item.data));
      DataOfAppend(trackeditems.contents, item);
      trackeditems.Write(item);
      assert CellsIntact();
      log := log + [Added(item.data)];
      history := history + [item];
    }
  }

  lemma DataOfAppend(items: seq<Item>, item: Item)
    ensures DataOf(items + [item]) == DataOf(items) + [item.data]
  {
  }

  lemma TrackedEnd(w: seq<Item>, h: seq<Item>, item: Item)
    requires |w| <= |h| && w == Last(h, |w|) && PushedInOrder(h, item.pushed)
    ensures w + [item] == Last(h + [item], |w| + 1) && PushedInOrder(h + [item], item.pushed)
  {
  }

  /** The oldest tracked item decides for all of them. */
  lemma AllYoung(w: seq<Item>, h: seq<Item>, timeLimit: real, now: int)
    requires |w| <= |h| && w == Last(h, |w|) && PushedInOrder(h, now)
    requires w == [] || timeLimit == 0.0 || Young(w[0], timeLimit, now)
    ensures forall i :: 0 <= i < |w| ==> Young(w[i], timeLimit, now)
  {
  }

  lemma RefreshedFits(w: seq<Item>, v: seq<Item>, limit: int, timeLimit: real, now: int)
    requires forall i :: 0 <= i < |w| ==> Young(w[i], timeLimit, now)
    requires IsEnd(v, w) && |v| <= limit
    ensures Fits(v, limit, timeLimit, now)
  {
  }

  lemma EmptyWindow(now: int)
    ensures Last([], 0) == [] && PushedInOrder([], now)
  {
  }

  lemma NoRemovals(w: seq<Item>)
    ensures IsEnd(w, w) && Removals(Dropped(w, w)) == []
  {
  }

  function Removals(items: seq<Item>): seq<Event> {
    seq(|items|, i requires 0 <= i < |items| => Removed(items[i].data))
  }

  /** Nothing older fits when the next older item does not. */
  lemma {:induction false} BlockedIsLongest(w: seq<Item>, h: seq<Item>, limit: int, timeLimit: real, now: int)
    requires |w| <= |h| && w == Last(h, |w|) && PushedInOrder(h, now) && Fits(w, limit, timeLimit, now)
    requires |w| == |h| || |w| >= limit || !Young(h[|h| - |w| - 1], timeLimit, now)
    ensures LongestFit(w, h, limit, timeLimit, now)
  {
    forall k | |w| < k <= |h| ensures !Fits(Last(h, k), limit, timeLimit, now) {
      if |w| < limit {
        assert Last(h, k)[k - |w| - 1] == h[|h| - |w| - 1];
      }
    }
  }

  lemma {:induction false} AddedIsLongest(w: seq<Item>, h: seq<Item>, item: Item, limit: int, timeLimit: real, now: int)
    requires LongestFit(w, h, limit - 1, timeLimit, now) && timeLimit >= 0.0 && item.pushed >= now
    ensures LongestFit(w + [item], h + [item], limit, timeLimit, now)
  {
    forall k | |w| + 1 < k <= |h| + 1 ensures !Fits(Last(h + [item], k), limit, timeLimit, now) {
      assert !Fits(Last(h, k - 1), limit - 1, timeLimit, now);
      assert Last(h + [item], k) == Last(h, k - 1) + [item];
      if k <= limit {
        var i :| 0 <= i < k - 1 && !Young(Last(h, k - 1)[i], timeLimit, now);
        assert !Young(Last(h + [item], k)[i], timeLimit, now);
      }
    }
    assert Last(h + [item], |w| + 1) == w + [item];
  }

  /** The window item by item: an item of the history is in the window exactly when it is among
      the last `limit` and its age is below the time limit, if there is one. */
  lemma {:induction false} WindowExactly(w: seq<Item>, h: seq<Item>, limit: int, timeLimit: real, now: int, i: int)
    requires LongestFit(w, h, limit, timeLimit, now) && 0 <= i < |h|
    requires forall j, k :: 0 <= j < k < |h| ==> h[j].pushed <= h[k].pushed
    ensures |h| - |w| <= i <==> |h| - limit <= i && (timeLimit == 0.0 || (now - h[i].pushed) as real < timeLimit)
    ensures |h| - |w| <= i ==> w[i - (|h| - |w|)] == h[i]
  {
    if |h| - |w| > i && |h| - limit <= i {
      var k := |h| - i;
      assert !Fits(Last(h, k), limit, timeLimit, now);
      var j :| 0 <= j < k && !Young(Last(h, k)[j], timeLimit, now);
      assert Last(h, k)[j] == h[i + j];
    }
    if |h| - |w| <= i {
      assert Young(w[i - (|h| - |w|)], timeLimit, now);
    }
  }
}
