/**
 Whole runs of the percentile plugin (src/lib/lib_swplugins.c): the runs in which everything
 it publishes is right, and for each way of going wrong a run that does.
 */
module PercentileRuns {
  import opened Options
  import opened TreeShape
  import opened BinTrees
  import opened Ranks
  import opened Events
  import opened Percentiles

  // ---------------------------------------------------------------- runs that are right

  function LiveKeys(log: seq<Event>): multiset<int> {
    multiset(KeysOf(Live(log)))
  }

  /** Every value that expires is live once, and so is the next smaller live value. */
  ghost predicate SafeLog(log: seq<Event>) {
    forall k :: 0 <= k < |log| && log[k].Removed? ==> SafeRemoval(LiveKeys(log[..k]), log[k].item.key)
  }

  /** The next add has no lower maximum to look at: as many values are live as are required,
      and they are less than one whole rank. */
  predicate Stranding(p: int, log: seq<Event>, k: nat)
    requires 10 <= p <= 90 && k < |log|
  {
    var n := |Live(log[..k])|;
    log[k].Added? && n == Required(p) && p * n < 100
  }

  lemma StrandingPercentages(p: int, log: seq<Event>, k: nat)
    requires 10 <= p <= 90 && k < |log| && Stranding(p, log, k)
    ensures p < 50 && 100 % p != 0
  {
    RequiredShare(p);
  }

  /** Over every run with safe removals, what is published after each event is the
      nearest-rank percentile of the live values, found by sorting them. A run is cut short
      only where an add would look at a maximum that is not there, which no percentage of at
      least 50 and none that divides 100 ever does. */
  method RunPercentile(percentile: int, log: seq<Event>) returns (published: seq<Candidates>)
    requires Fifo(log) && SafeLog(log)
    ensures |published| <= |log|
    ensures forall k :: 0 <= k < |published| ==>
              NearestRank(Clamp(percentile), Sort(KeysOf(Live(log[..k + 1]))), published[k])
    ensures |published| < |log| ==> Stranding(Clamp(percentile), log, |published|)
    ensures Clamp(percentile) >= 50 || 100 % Clamp(percentile) == 0 ==> |published| == |log|
  {
    hide NearestRank, Published, Settled, Required, Clamp, Sort, Fifo, Live, SafeRemoval, KeysOf, Percentile.Valid, Percentile.Trees, Percentile.Window, Percentile.Ready, Stranding, Ordered, Search, Bag;
    var plugin := new Percentile(percentile);
    published := [];
    NothingLive(log);
    plugin.EmptyWindow();
    for i := 0 to |log|
      invariant plugin.Valid() && plugin.percentile == Clamp(percentile)
      invariant fresh(plugin) && fresh(plugin.Trees())
      invariant plugin.Window() == LiveKeys(log[..i])
      invariant |published| == i
      invariant forall k :: 0 <= k < i ==>
                  NearestRank(Clamp(percentile), Sort(KeysOf(Live(log[..k + 1]))), published[k])
    {
      assert log[..i + 1] == log[..i] + [log[i]];
      if log[i].Added? && !plugin.HasMaximum() {
        StrandedHere(plugin, log, i);
        return;
      }
      LiveExtend(log[..i], log[i]);
      FifoPrefix(log, i + 1);
      label Feeding:
      Feed(plugin, Live(log[..i]), log[i]);
      forall o | o in plugin.Trees() ensures fresh(o) {
        assert o in old@Feeding(plugin.Trees()) || fresh@Feeding(o);
      }
      plugin.SortedWindow(KeysOf(Live(log[..i + 1])));
      published := published + [plugin.candidates];
    }
  }

  lemma StrandedHere(plugin: Percentile, log: seq<Event>, i: nat)
    requires plugin.Valid() && !plugin.Ready() && i < |log| && log[i].Added? && plugin.Window() == LiveKeys(log[..i])
    ensures Stranding(plugin.percentile, log, i) && plugin.percentile < 50 && 100 % plugin.percentile != 0
  {
    plugin.NotReady();
    plugin.CountersCount();
    plugin.RequiredNumber();
    assert |LiveKeys(log[..i])| == |KeysOf(Live(log[..i]))|;
    StrandingPercentages(plugin.percentile, log, i);
  }

  /** One event, given to a valid plugin that is ready for it. */
  method Feed(plugin: Percentile, ghost live: seq<Ref>, e: Event)
    requires plugin.Valid() && plugin.Window() == multiset(KeysOf(live))
    requires e.Added? ==> plugin.Ready()
    requires e.Removed? ==> live != [] && live[0] == e.item && SafeRemoval(plugin.Window(), e.item.key)
    modifies plugin, plugin.Trees()
    ensures plugin.Valid() && plugin.Window() == multiset(KeysOf(After(live, e)))
    ensures fresh(plugin.Trees() - old(plugin.Trees()))
  {
    hide Percentile.Valid, Percentile.Trees, Percentile.Window, Percentile.Ready, Settled, Required, SafeRemoval;
    if e.Added? {
      KeysBagAppend(live, e.item);
      plugin.ValidShape();
      plugin.AddPipe(e.item);
    } else {
      KeysBagTail(live);
      plugin.SafeHere(e.item.key);
      plugin.RemPipe(e.item);
    }
  }

  // ---------------------------------------------------------------- runs of adds and one removal

  ghost predicate AtMost(m: nat, items: seq<Ref>) {
    forall x :: multiset(KeysOf(items))[x] <= m
  }

  /** Never more than `m` live values are equal. */
  ghost predicate Copies(m: nat, log: seq<Event>) {
    forall k :: 0 <= k <= |log| ==> AtMost(m, Live(log[..k]))
  }

  /** Runs without equal live values are safe. */
  lemma OnceIsSafe(log: seq<Event>)
    requires Copies(1, log)
    ensures SafeLog(log)
  {
    forall k | 0 <= k < |log| && log[k].Removed? ensures SafeRemoval(LiveKeys(log[..k]), log[k].item.key) {
      assert AtMost(1, Live(log[..k]));
    }
  }

  function Adds(items: seq<Ref>): seq<Event> {
    seq(|items|, i requires 0 <= i < |items| => Added(items[i]))
  }

  /** Adding the items, then letting the first one expire. */
  function AddsAndOne(items: seq<Ref>): seq<Event>
    requires items != []
  {
    Adds(items) + [Removed(items[0])]
  }

  lemma {:induction false} AddsLive(items: seq<Ref>)
    ensures Live(Adds(items)) == items && Fifo(Adds(items))
  {
    if items != [] {
      var n := |items| - 1;
      AddsLive(items[..n]);
      assert Adds(items) == Adds(items[..n]) + [Added(items[n])];
      LiveExtend(Adds(items[..n]), Added(items[n]));
    }
  }

  /** What is live at each moment of such a run. */
  lemma {:induction false} AddsAndOneLive(items: seq<Ref>, k: nat)
    requires items != [] && k <= |items| + 1
    ensures Fifo(AddsAndOne(items))
    ensures Live(AddsAndOne(items)[..k]) == if k <= |items| then items[..k] else items[1..]
  {
    var log := AddsAndOne(items);
    AddsLive(items);
    LiveExtend(Adds(items), Removed(items[0]));
    if k <= |items| {
      AddsLive(items[..k]);
      assert log[..k] == Adds(items[..k]);
    } else {
      assert log[..k] == log;
    }
  }

  /** Fewer items hold fewer copies. */
  lemma {:induction false} PartAtMost(m: nat, items: seq<Ref>, i: nat, j: nat)
    requires i <= j <= |items| && AtMost(m, items)
    ensures AtMost(m, items[i..j])
  {
    assert KeysOf(items) == KeysOf(items[..i]) + KeysOf(items[i..j]) + KeysOf(items[j..]);
    forall x ensures multiset(KeysOf(items[i..j]))[x] <= m {
      assert multiset(KeysOf(items))[x]
        == multiset(KeysOf(items[..i]))[x] + multiset(KeysOf(items[i..j]))[x] + multiset(KeysOf(items[j..]))[x];
    }
  }

  lemma {:induction false} AddsAndOneCopies(m: nat, items: seq<Ref>)
    requires items != [] && AtMost(m, items)
    ensures Copies(m, AddsAndOne(items))
  {
    var log := AddsAndOne(items);
    forall k | 0 <= k <= |log| ensures AtMost(m, Live(log[..k])) {
      AddsAndOneLive(items, k);
      if k <= |items| {
        PartAtMost(m, items, 0, k);
        assert items[0..k] == items[..k];
      } else {
        PartAtMost(m, items, 1, |items|);
        assert items[1..|items|] == items[1..];
      }
    }
  }

  lemma {:induction false} DistinctAtMostOnce(items: seq<Ref>)
    requires forall i, j :: 0 <= i < j < |items| ==> items[i].key != items[j].key
    ensures AtMost(1, items)
    decreases |items|
  {
    if items != [] {
      DistinctAtMostOnce(items[1..]);
      KeysBagTail(items);
      assert items[0].key !in KeysOf(items[1..]);
      assert multiset(KeysOf(items)) == multiset(KeysOf(items[1..])) + multiset{items[0].key};
    }
  }

  // ---------------------------------------------------------------- one value more than required

  method AddNext(plugin: Percentile, items: seq<Ref>, i: nat)
    requires plugin.Valid() && plugin.Ready() && i < |items|
    requires plugin.calls == Adds(items[..i]) && plugin.Window() == multiset(KeysOf(items[..i]))
    modifies plugin, plugin.Trees()
    ensures plugin.Valid() && fresh(plugin.Trees() - old(plugin.Trees()))
    ensures plugin.calls == Adds(items[..i + 1]) && plugin.Window() == multiset(KeysOf(items[..i + 1]))
    ensures plugin.Mxc + plugin.Mnc == old(plugin.Mxc + plugin.Mnc) + 1
    ensures 10 <= plugin.percentile <= 90
    ensures plugin.Mxc + plugin.Mnc < plugin.required ==>
              RootKey(plugin.maxtree.tree) == if old(plugin.maxtree.tree).Leaf? then Some(items[i].key) else RootKey(old(plugin.maxtree.tree))
    ensures plugin.Mxc == Rebalanced(plugin.percentile, old(plugin.Mxc) + (if old(plugin.GoesLow(items[i].key)) then 1 else 0), plugin.Mxc + plugin.Mnc)
  {
    hide Settled, Required, Percentile.Valid, Percentile.Trees, Percentile.Window, Percentile.Ready, Choice, KeysOf, Adds, Rebalanced, Percentile.GoesLow, Percentile.Shape;
    plugin.ValidShape();
    KeysBagAppend(items[..i], items[i]);
    assert items[..i + 1] == items[..i] + [items[i]];
    plugin.ShapeRequired();
    plugin.AddPipe(items[i]);
    AddsAppend(items[..i], items[i]);
  }

  lemma AddsAppend(items: seq<Ref>, item: Ref)
    ensures Adds(items + [item]) == Adds(items) + [Added(item)]
  {
  }

  /** With exactly the required number of values, a greater one goes high and one that is not
      greater goes low. */
  lemma LastSide(plugin: Percentile, items: seq<Ref>, n: nat)
    requires plugin.Valid() && plugin.required == n == |items| - 1 && plugin.Mxc + plugin.Mnc == n && plugin.Mxc > 0
    requires plugin.Window() == multiset(KeysOf(items[..n]))
    ensures plugin.Ready()
    ensures (forall i :: 0 <= i < n ==> items[i].key < items[n].key) ==> !plugin.GoesLow(items[n].key)
    ensures (forall i :: 0 <= i < n ==> items[n].key <= items[i].key) ==> plugin.GoesLow(items[n].key)
  {
    hide Settled, Required, Percentile.Valid, Percentile.Window, Rightmost, Bag;
    plugin.LowerTreeReady();
    plugin.LowKeys();
    var top := Rightmost(plugin.maxtree.tree).data.key;
    assert top in KeysOf(items[..n]);
    var i :| 0 <= i < n && KeysOf(items[..n])[i] == top;
    assert items[i].key == top;
  }

  lemma FullSettled(p: int, n: int)
    requires 10 <= p <= 90 && n >= Required(p)
    ensures 1 <= Settled(p, n, n) <= n
  {
    SettledClose(p, n, n);
  }

  /** Adds one value more than required: all but the last go low, and the last one goes low or
      high as it is the least or the greatest of all. */
  method FillRun(percentile: int, items: seq<Ref>) returns (plugin: Percentile)
    requires |items| == Required(Clamp(percentile)) + 1
    ensures plugin.Valid() && fresh(plugin) && fresh(plugin.Trees())
    ensures plugin.percentile == Clamp(percentile) && plugin.required == Required(Clamp(percentile))
    ensures plugin.calls == Adds(items) && plugin.Window() == multiset(KeysOf(items))
    ensures FilledLow(plugin.percentile, items, plugin.Mxc)
  {
    hide Settled, Required, Percentile.Valid, Percentile.Trees, Percentile.Window, KeysOf, Bag, Choice, Clamp, Percentile.GoesLow, Percentile.Ready;
    plugin := new Percentile(percentile);
    var p, n := Clamp(percentile), Required(Clamp(percentile));
    plugin.EmptyWindow();
    FullSettled(p, n);
    StartEmpty(items);
    for i := 0 to n
      invariant plugin.Valid() && fresh(plugin) && fresh(plugin.Trees()) && plugin.percentile == p && plugin.required == n
      invariant plugin.calls == Adds(items[..i]) && plugin.Window() == multiset(KeysOf(items[..i]))
      invariant plugin.Mxc + plugin.Mnc == i && plugin.Mxc == if i < n then i else Settled(p, n, n)
    {
      plugin.LowerTreeReady();
      plugin.FirstGoLow();
      label Adding:
      AddNext(plugin, items, i);
      forall o | o in plugin.Trees() ensures fresh(o) {
        assert o in old@Adding(plugin.Trees()) || fresh@Adding(o);
      }
    }
    LastSide(plugin, items, n);
    label Last:
    AddNext(plugin, items, n);
    forall o | o in plugin.Trees() ensures fresh(o) {
      assert o in old@Last(plugin.Trees()) || fresh@Last(o);
    }
    assert items[..n + 1] == items;
  }

  /** Where the seam is when the last of the items is the greatest or the least of them. */
  ghost predicate FilledLow(p: int, items: seq<Ref>, low: int)
    requires 10 <= p <= 90 && |items| == Required(p) + 1
  {
    var n := Required(p);
    && ((forall i :: 0 <= i < n ==> items[i].key < items[n].key) ==> low == Settled(p, Settled(p, n, n), n + 1))
    && ((forall i :: 0 <= i < n ==> items[n].key <= items[i].key) ==> low == Settled(p, Settled(p, n, n) + 1, n + 1))
  }

  lemma StartEmpty(items: seq<Ref>)
    ensures Adds(items[..0]) == [] && multiset(KeysOf(items[..0])) == multiset{}
  {
  }

  /** The first value expires, and no reference is lost besides. */
  method ExpireFirst(plugin: Percentile, items: seq<Ref>)
    requires plugin.Valid() && items != [] && plugin.calls == Adds(items)
    requires Loss(plugin.maxtree.tree, items[0].key) == 0 && Loss(plugin.mintree.tree, items[0].key) == 0
    modifies plugin, plugin.Trees()
    ensures plugin.Valid() && plugin.calls == AddsAndOne(items)
    ensures var k := multiset{items[0].key};
            && plugin.Window() == (old(Bag(plugin.maxtree.tree)) - k) + (old(Bag(plugin.mintree.tree)) - k)
            && plugin.Mxc + plugin.Mnc == |plugin.Window()| && 10 <= plugin.percentile <= 90
            && (plugin.Mxc + plugin.Mnc >= plugin.required ==>
                  plugin.Mxc == Settled(plugin.percentile, |old(Bag(plugin.maxtree.tree)) - k|, |plugin.Window()|))
            && (plugin.Mxc + plugin.Mnc < plugin.required ==> plugin.candidates == NO_CANDIDATES)
  {
    hide Settled, Required, Percentile.Valid, Percentile.Trees, Percentile.Window, Percentile.Shape, Bag, Loss, BinTree.Drift;
    plugin.RequiredNumber();
    plugin.RemPipe(items[0]);
  }

  // ---------------------------------------------------------------- an add without a maximum

  /** The values 1, 2, ..., n. */
  function Ascent(n: nat): seq<Ref> {
    seq(n, i requires 0 <= i => Ref(i, i + 1))
  }

  /** A percentage below 50 that does not divide 100. */
  predicate Uneven(p: int) {
    0 < p < 50 && 100 % p != 0
  }

  /** For every percentage below 50 that does not divide 100, distinct values strand the
      plugin: after 1, 2, ... up to one more than required, and the 1 expired, as many values
      are live as are required and the lower tree is empty. */
  method StrandingRun(percentile: int) returns (plugin: Percentile)
    requires Uneven(Clamp(percentile))
    ensures plugin.percentile == Clamp(percentile) && plugin.required == Required(Clamp(percentile))
    ensures plugin.calls == AddsAndOne(Ascent(plugin.required + 1))
    ensures Fifo(plugin.calls) && Copies(1, plugin.calls)
    ensures plugin.Valid() && !plugin.Ready()
  {
    hide Settled, Required, Percentile.Valid, Percentile.Trees, Percentile.Window, Percentile.Ready, Percentile.Shape, KeysOf, Bag, Loss, Clamp, Fifo, Live, Copies, AddsAndOne, Ascent, FilledLow, Adds, Uneven, AtMost, SafeRemoval;
    var p, n := Clamp(percentile), Required(Clamp(percentile));
    var items := Ascent(n + 1);
    AscentShape(n + 1);
    plugin := FillRun(percentile, items);
    AscentLow(p, plugin.Mxc);
    AscentRun(n + 1);
    LowestLeaves(plugin, items);
    ExpireFirst(plugin, items);
    plugin.LowerTreeReady();
  }

  lemma AscentShape(n: nat)
    ensures |Ascent(n)| == n && (n > 0 ==> Ascent(n)[0] == Ref(0, 1))
  {
  }

  lemma AscentRun(n: nat)
    requires n > 0
    ensures Ascent(n) != [] && Fifo(AddsAndOne(Ascent(n))) && Copies(1, AddsAndOne(Ascent(n)))
  {
    AscentKeys(n);
    AddsAndOneCopies(1, Ascent(n));
    AddsAndOneLive(Ascent(n), 0);
  }

  lemma AscentLow(p: int, low: int)
    requires 10 <= p <= 90 && Uneven(p)
    requires |Ascent(Required(p) + 1)| == Required(p) + 1 && FilledLow(p, Ascent(Required(p) + 1), low)
    ensures low == 1 && Settled(p, 0, Required(p)) == 0
  {
    hide Required, Settled;
    StrandingArithmetic(p);
  }

  /** The only value below the seam expires. */
  lemma LowestLeaves(plugin: Percentile, items: seq<Ref>)
    requires plugin.Valid() && items == Ascent(|items|) && items != []
    requires plugin.Window() == multiset(KeysOf(items)) && plugin.Mxc == 1
    ensures Loss(plugin.maxtree.tree, 1) == 0 && Loss(plugin.mintree.tree, 1) == 0
    ensures |Bag(plugin.maxtree.tree) - multiset{1}| == 0
    ensures |(Bag(plugin.maxtree.tree) - multiset{1}) + (Bag(plugin.mintree.tree) - multiset{1})| == |items| - 1
  {
    hide Percentile.Valid, Percentile.Window, KeysOf, Bag, Loss, Ascent, SafeRemoval;
    AscentKeys(|items|);
    plugin.SafeHere(1);
    plugin.LeastIsLow(1);
    plugin.Exactly();
    plugin.CountersCount();
    OneLess(Bag(plugin.maxtree.tree), 1);
    NotThere(Bag(plugin.mintree.tree), 1);
    KeyCount(items);
  }

  lemma NotThere(m: multiset<int>, x: int)
    ensures x !in m ==> m - multiset{x} == m
  {
  }

  lemma KeyCount(items: seq<Ref>)
    ensures |multiset(KeysOf(items))| == |items|
  {
  }

  lemma OneLess(m: multiset<int>, x: int)
    requires x in m
    ensures |m - multiset{x}| == |m| - 1
  {
    assert m == (m - multiset{x}) + multiset{x};
  }

  lemma {:induction false} AscentKeys(n: nat)
    requires n > 0
    ensures AtMost(1, Ascent(n)) && SafeRemoval(multiset(KeysOf(Ascent(n))), 1)
    ensures 1 in multiset(KeysOf(Ascent(n))) && forall x :: x in multiset(KeysOf(Ascent(n))) ==> 1 <= x
  {
    var items := Ascent(n);
    DistinctAtMostOnce(items);
    assert KeysOf(items)[0] == 1;
    forall x | x in multiset(KeysOf(items)) ensures 1 <= x {
      assert x in KeysOf(items);
    }
  }

  lemma {:induction false} StrandingArithmetic(p: int)
    requires 10 <= p < 50 && 100 % p != 0
    ensures var n := Required(p);
            && Settled(p, n, n) == 1 && Settled(p, 1, n + 1) == 1 && Settled(p, 0, n) == 0 && n >= 2
  {
    RequiredShare(p);
    Division(100 - p, p);
    assert p * Required(p) > 100 - p;
    assert p * (Required(p) + 1) == p * Required(p) + p;
  }

  // ---------------------------------------------------------------- two equal values

  function Up(n: nat): seq<int> {
    seq(n, i requires 0 <= i => i + 1)
  }

  function Down(n: nat): seq<int> {
    seq(n, i requires 0 <= i => -i - 1)
  }

  /** Zero twice, then `a` values below and `b` values above. */
  function Straddle(a: nat, b: nat): seq<Ref> {
    var keys := [0, 0] + Down(a) + Up(b);
    seq(|keys|, i requires 0 <= i < |keys| => Ref(i, keys[i]))
  }

  lemma {:induction false} UpBag(n: nat, x: int)
    ensures multiset(Up(n))[x] == if 1 <= x <= n then 1 else 0
  {
    if n > 0 {
      UpBag(n - 1, x);
      assert Up(n) == Up(n - 1) + [n];
    }
  }

  lemma {:induction false} DownBag(n: nat, x: int)
    ensures multiset(Down(n))[x] == if 0 - n <= x <= -1 then 1 else 0
  {
    if n > 0 {
      DownBag(n - 1, x);
      assert Down(n) == Down(n - 1) + [0 - n];
    }
  }

  /** How often each key is straddled. */
  ghost predicate Straddles(m: multiset<int>, a: nat, b: nat) {
    forall x :: m[x] == if x == 0 then 2 else if 0 - a <= x <= b then 1 else 0
  }

  lemma {:induction false} StraddleBag(a: nat, b: nat)
    ensures Straddles(multiset(KeysOf(Straddle(a, b))), a, b)
  {
    assert KeysOf(Straddle(a, b)) == [0, 0] + Down(a) + Up(b);
    forall x ensures multiset([0, 0] + Down(a) + Up(b))[x] == if x == 0 then 2 else if 0 - a <= x <= b then 1 else 0 {
      UpBag(b, x);
      DownBag(a, x);
    }
  }

  lemma Nothing(m: multiset<int>)
    requires forall x :: x !in m
    ensures |m| == 0
  {
    assert forall x :: m[x] == 0;
    assert multiset{} >= m;
  }

  /** A bag of single keys from a range is no larger than the range. */
  lemma {:induction false} RangeCard(m: multiset<int>, low: int, high: int)
    requires low <= high && forall x :: m[x] <= if low <= x < high then 1 else 0
    ensures |m| <= high - low
    decreases high - low
  {
    if low == high {
      assert forall x :: x !in m;
      Nothing(m);
    } else {
      var k := high - 1;
      if k in m {
        OneLess(m, k);
        RangeCard(m - multiset{k}, low, k);
      } else {
        RangeCard(m, low, k);
      }
    }
  }

  /** When the lower tree holds one value more than lie below zero, each tree holds a zero. */
  lemma {:induction false} ZerosSplit(lower: multiset<int>, upper: multiset<int>, a: nat, b: nat)
    requires Ordered(lower, upper) && Straddles(lower + upper, a, b)
    requires |lower| == a + 1 && |upper| == b + 1
    ensures lower[0] == 1 && upper[0] == 1
    ensures forall x :: lower[x] <= 1 && upper[x] <= 1
  {
    assert (lower + upper)[0] == 2;
    forall x ensures lower[x] <= 2 && upper[x] <= 2 && (x != 0 ==> lower[x] + upper[x] <= if 0 - a <= x <= b then 1 else 0) {
      assert (lower + upper)[x] == lower[x] + upper[x];
    }
    if lower[0] == 0 {
      assert 0 in upper;
      RangeCard(lower, 0 - a, 0);
    }
    if upper[0] == 0 {
      assert 0 in lower;
      RangeCard(upper, 1, b + 1);
    }
  }

  /** Where a fill leaves the seam when the last value is the greatest. */
  function Seam(p: int): int
    requires 10 <= p <= 90
  {
    var n := Required(p);
    Settled(p, Settled(p, n, n), n + 1)
  }

  /** As many values below the two zeros as put them astride the seam. */
  lemma {:induction false} Astride(p: int, low: int)
    requires 10 <= p <= 90 && 1 <= Seam(p) <= Required(p)
    requires FilledLow(p, Straddle(Seam(p) - 1, Required(p) - Seam(p)), low)
    ensures low == Seam(p)
  {
    var n := Required(p);
    SeamInside(p);
    var a, b := Seam(p) - 1, n - Seam(p);
    var items := Straddle(a, b);
    if b > 0 {
      assert items[n].key == b;
    } else {
      assert items[n].key == 0 - a;
    }
  }

  lemma SeamInside(p: int)
    requires 10 <= p <= 90
    ensures var n := Required(p);
            var c := Settled(p, n, n);
            && 1 <= Seam(p) <= n
            && (Seam(p) == n ==> Settled(p, c + 1, n + 1) == n && n > 1)
  {
    var n := Required(p);
    RequiredShare(p);
    Division(p, 100 - p);
    Division(100 - p, p);
    SettledClose(p, n, n);
    assert p * (n + 1) == p * n + p;
  }

  /** For every percentage there is a run in which no three live values are equal and what is
      published is wrong: two zeros come to lie astride the seam, and one expires. As many
      values as required are live, the trees hold one less, and nothing is published. */
  method DuplicateRun(percentile: int) returns (plugin: Percentile)
    ensures plugin.percentile == Clamp(percentile)
    ensures Fifo(plugin.calls) && Copies(2, plugin.calls)
    ensures |plugin.Window()| == |Live(plugin.calls)| - 1
    ensures !NearestRank(Clamp(percentile), Sort(KeysOf(Live(plugin.calls))), plugin.candidates)
  {
    hide Settled, Required, Percentile.Valid, Percentile.Trees, Percentile.Window, Percentile.Shape, KeysOf, Bag, Loss, Clamp, Fifo, Live, Straddle, Seam, AddsAndOne, NearestRank, FilledLow, Copies;
    var p := Clamp(percentile);
    SeamInside(p);
    var a, b := Seam(p) - 1, Required(p) - Seam(p);
    var items := Straddle(a, b);
    StraddleShape(a, b);
    plugin := FillRun(percentile, items);
    Astride(p, plugin.Mxc);
    AddsAndOneCopies(2, items);
    AddsAndOneLive(items, |items| + 1);
    ZeroLeaves(plugin, items, a, b);
    ExpireFirst(plugin, items);
    AddsAndOneWhole(items);
    NothingPublished(p, items[1..]);
  }

  lemma {:induction false} StraddleShape(a: nat, b: nat)
    ensures |Straddle(a, b)| == a + b + 2 && Straddle(a, b)[0].key == 0 && AtMost(2, Straddle(a, b))
    ensures Straddles(multiset(KeysOf(Straddle(a, b))), a, b)
  {
    StraddleBag(a, b);
  }

  lemma AddsAndOneWhole(items: seq<Ref>)
    requires items != []
    ensures AddsAndOne(items)[..|items| + 1] == AddsAndOne(items) == Adds(items) + [Removed(items[0])]
  {
  }

  /** Enough live values, and nothing published. */
  lemma NothingPublished(p: int, live: seq<Ref>)
    requires 10 <= p <= 90 && |live| >= Required(p)
    ensures !NearestRank(p, Sort(KeysOf(live)), NO_CANDIDATES)
  {
    var keys := KeysOf(live);
    assert |Sort(keys)| == |multiset(Sort(keys))| == |multiset(keys)| == |keys|;
  }

  /** Each tree loses a zero, and no reference besides. */
  lemma {:induction false} ZeroLeaves(plugin: Percentile, items: seq<Ref>, a: nat, b: nat)
    requires plugin.Valid() && plugin.Window() == multiset(KeysOf(items)) && |items| == a + b + 2
    requires Straddles(plugin.Window(), a, b) && plugin.Mxc == a + 1
    ensures Loss(plugin.maxtree.tree, 0) == 0 && Loss(plugin.mintree.tree, 0) == 0
    ensures |(Bag(plugin.maxtree.tree) - multiset{0}) + (Bag(plugin.mintree.tree) - multiset{0})| == a + b
  {
    hide Percentile.Valid, KeysOf, Bag, Loss, Straddles, Search;
    plugin.CountersCount();
    plugin.Exactly();
    KeyCount(items);
    var lower, upper := Bag(plugin.maxtree.tree), Bag(plugin.mintree.tree);
    ZerosSplit(lower, upper, a, b);
    plugin.SearchTrees();
    LossBound(plugin.maxtree.tree, 0);
    LossBound(plugin.mintree.tree, 0);
    OneLess(lower, 0);
    OneLess(upper, 0);
  }

  // ---------------------------------------------------------------- a lost reference

  lemma CopiesExtend(m: nat, log: seq<Event>, e: Event)
    requires Copies(m, log) && AtMost(m, After(Live(log), e))
    ensures Copies(m, log + [e])
  {
    var all := log + [e];
    LiveExtend(log, e);
    forall k | 0 <= k <= |all| ensures AtMost(m, Live(all[..k])) {
      if k <= |log| {
        assert all[..k] == log[..k];
        assert AtMost(m, Live(log[..k]));
      } else {
        assert all[..k] == all;
      }
    }
  }

  /** A run whose trees are right while its counters are not: add 2, 1, 1 and 3, let the 2
      expire, whose node its predecessor 1 refills, and add values until as many as required
      are live. One is not counted, and nothing is published. */
  method DriftRun(percentile: int) returns (plugin: Percentile)
    requires Required(Clamp(percentile)) >= 5
    ensures plugin.percentile == Clamp(percentile)
    ensures Fifo(plugin.calls) && Copies(2, plugin.calls)
    ensures plugin.Window() == LiveKeys(plugin.calls)
    ensures !NearestRank(Clamp(percentile), Sort(KeysOf(Live(plugin.calls))), plugin.candidates)
  {
    var n := Required(Clamp(percentile));
    plugin := LoseOne(percentile);
    ghost var live := [Ref(1, 1), Ref(2, 1), Ref(3, 3)];
    var next := 4;
    while next <= n
      invariant 4 <= next <= n + 1 && fresh(plugin) && fresh(plugin.Trees())
      invariant Drifted(plugin, percentile, live)
      invariant |live| == next - 1 && forall r :: r in live ==> r.key < next
    {
      label Adding:
      AddOneMore(plugin, percentile, live, Ref(next, next));
      live := live + [Ref(next, next)];
      next := next + 1;
      forall o | o in plugin.Trees() ensures fresh(o) {
        assert o in old@Adding(plugin.Trees()) || fresh@Adding(o);
      }
    }
    NothingPublished(Clamp(percentile), live);
  }

  /** All live values are below the seam, and one of them is not counted. */
  ghost predicate Drifted(plugin: Percentile, percentile: int, live: seq<Ref>)
    reads plugin, plugin.maxtree, plugin.mintree, Nodes(plugin.maxtree.tree), Nodes(plugin.mintree.tree)
  {
    && plugin.Shape() && plugin.percentile == Clamp(percentile) && Bag(plugin.mintree.tree) == multiset{}
    && plugin.Window() == multiset(KeysOf(live)) && plugin.Mxc + plugin.Mnc == |live| - 1 < plugin.required
    && plugin.candidates == NO_CANDIDATES
    && Fifo(plugin.calls) && Copies(2, plugin.calls) && Live(plugin.calls) == live
  }

  method AddOneMore(plugin: Percentile, percentile: int, ghost live: seq<Ref>, item: Ref)
    requires Drifted(plugin, percentile, live) && |live| < plugin.required
    requires forall r :: r in live ==> r.key < item.key
    modifies plugin, plugin.Trees()
    ensures Drifted(plugin, percentile, live + [item])
    ensures fresh(plugin.Trees() - old(plugin.Trees()))
  {
    hide Required, Bag, Copies, Fifo, Live, KeysOf, Percentile.Trees;
    plugin.ShapeRequired();
    KeysBagAppend(live, item);
    LiveExtend(plugin.calls, Added(item));
    CopiesNow(2, plugin.calls);
    NewKey(live, item);
    CopiesExtend(2, plugin.calls, Added(item));
    plugin.AddPipe(item);
  }

  lemma CopiesNow(m: nat, log: seq<Event>)
    requires Copies(m, log)
    ensures AtMost(m, Live(log))
  {
    assert log[..|log|] == log;
  }

  lemma NewKey(live: seq<Ref>, item: Ref)
    requires AtMost(2, live) && forall r :: r in live ==> r.key < item.key
    ensures AtMost(2, live + [item])
  {
    KeysBagAppend(live, item);
    assert item.key !in KeysOf(live);
  }

  /** The first four values, whose order of arrival puts the 2 at the root. */
  function Four(): seq<Ref> {
    [Ref(0, 2), Ref(1, 1), Ref(2, 1), Ref(3, 3)]
  }

  method AddFour(percentile: int) returns (plugin: Percentile)
    requires Required(Clamp(percentile)) >= 5
    ensures plugin.Valid() && fresh(plugin) && fresh(plugin.Trees())
    ensures plugin.percentile == Clamp(percentile) && plugin.required == Required(Clamp(percentile))
    ensures plugin.calls == Adds(Four()) && plugin.Window() == multiset(KeysOf(Four()))
    ensures plugin.Ready() && plugin.Mxc + plugin.Mnc == 4 && RootKey(plugin.maxtree.tree) == Some(2)
  {
    hide Required, Percentile.Valid, Percentile.Trees, Percentile.Window, Percentile.Ready, KeysOf, Clamp, RootKey, Rebalanced, Percentile.GoesLow;
    var items := Four();
    plugin := new Percentile(percentile);
    plugin.EmptyWindow();
    StartEmpty(items);
    plugin.LowerTreeReady();
    for i := 0 to 4
      invariant plugin.Valid() && fresh(plugin) && fresh(plugin.Trees())
      invariant plugin.percentile == Clamp(percentile) && plugin.required == Required(Clamp(percentile))
      invariant plugin.calls == Adds(items[..i]) && plugin.Window() == multiset(KeysOf(items[..i]))
      invariant plugin.Mxc + plugin.Mnc == i && plugin.Ready()
      invariant if i == 0 then plugin.maxtree.tree.Leaf? else plugin.maxtree.tree.Fork? && RootKey(plugin.maxtree.tree) == Some(2)
    {
      label Adding:
      AddNext(plugin, items, i);
      RootThere(plugin.maxtree.tree);
      plugin.LowerTreeReady();
      forall o | o in plugin.Trees() ensures fresh(o) {
        assert o in old@Adding(plugin.Trees()) || fresh@Adding(o);
      }
    }
    assert items[..4] == items;
  }

  lemma RootThere(t: Tree)
    ensures RootKey(t).Some? <==> t.Fork?
  {
  }

  /** The node of the value that expires is refilled from one that counts twice. */
  method LoseOne(percentile: int) returns (plugin: Percentile)
    requires Required(Clamp(percentile)) >= 5
    ensures fresh(plugin) && fresh(plugin.Trees())
    ensures Drifted(plugin, percentile, [Ref(1, 1), Ref(2, 1), Ref(3, 3)])
  {
    hide Required, Percentile.Valid, Percentile.Shape, Percentile.Window, KeysOf, Bag, Loss, Clamp, Fifo, Live, Copies;
    plugin := AddFour(percentile);
    FourLow(plugin, Four());
    plugin.RequiredNumber();
    FourKeys();
    FourCalls();
    label Four:
    plugin.RemPipe(Four()[0]);
    forall o | o in plugin.Trees() ensures fresh(o) {
      assert o in old@Four(plugin.Trees()) || fresh@Four(o);
    }
    NothingThere(Bag(plugin.mintree.tree));
  }

  lemma NothingThere(m: multiset<int>)
    ensures |m| == 0 ==> m == multiset{}
  {
  }

  lemma FourKeys()
    ensures multiset(KeysOf(Four())) == multiset{1, 1, 2, 3}
    ensures multiset(KeysOf([Ref(1, 1), Ref(2, 1), Ref(3, 3)])) == multiset{1, 1, 3}
  {
    assert KeysOf(Four()) == [2, 1, 1, 3];
    assert KeysOf([Ref(1, 1), Ref(2, 1), Ref(3, 3)]) == [1, 1, 3];
  }

  lemma FourLow(plugin: Percentile, items: seq<Ref>)
    requires plugin.Valid() && items == Four()
    requires plugin.Window() == multiset(KeysOf(items)) && Bag(plugin.mintree.tree) == multiset{}
    requires RootKey(plugin.maxtree.tree) == Some(2)
    ensures Loss(plugin.maxtree.tree, 2) == 1 && Loss(plugin.mintree.tree, 2) == 0
    ensures (Bag(plugin.maxtree.tree) - multiset{2}) + (Bag(plugin.mintree.tree) - multiset{2}) == multiset{1, 1, 3}
  {
    hide Percentile.Valid, Bag, Loss, Search, KeysOf;
    plugin.SearchTrees();
    FourKeys();
    assert Bag(plugin.maxtree.tree) == multiset{1, 1, 2, 3};
    RootLoses(plugin.maxtree.tree, 2, 1, 3);
    LossBound(plugin.mintree.tree, 2);
  }

  lemma FourCalls()
    ensures var items := Four();
            var log := AddsAndOne(items);
            Fifo(log) && Copies(2, log) && Live(log) == [Ref(1, 1), Ref(2, 1), Ref(3, 3)]
  {
    var items := Four();
    FourKeys();
    AddsAndOneCopies(2, items);
    AddsAndOneLive(items, 5);
    AddsAndOneWhole(items);
  }
}
