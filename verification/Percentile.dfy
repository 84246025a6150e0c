/**
 The running percentile plugin (src/lib/lib_swplugins.c): a lower and an upper tree whose
 sizes are kept at the ratio p : 100-p, so that the percentile sits at the seam.

 In the source the lower tree is called `maxtree` (its maximum is looked at) and the
 upper tree `mintree`.
 */
module Percentiles {
  import opened Options
  import opened TreeShape
  import opened BinTrees
  import opened Ranks
  import opened Events

  /** The lower tree holds its share of the window, rounded one way or the other; below the
      required number of values it holds everything. */
  predicate Share(p: int, lower: int, n: int)
    requires 10 <= p <= 90
  {
    if n < Required(p) then lower == n else lower == Floor(p, n) || lower == Ceil(p, n)
  }

  /** The candidates that the source reads off the two trees. */
  ghost function Choice(p: int, lower: Tree, upper: Tree, mx: int, mn: int): Candidates
    requires 10 <= p <= 90
  {
    if mx + mn < Required(p) then NO_CANDIDATES
    else if RatioBelow(p, mx, mn) then Candidates(true, TopOf(lower), None)
    else if RatioAbove(p, mx, mn) then Candidates(true, None, BottomOf(upper))
    else Candidates(true, TopOf(lower), BottomOf(upper))
  }

  class Percentile {
    const percentile: int
    const required: int
    const maxtree: BinTree
    const mintree: BinTree
    var candidates: Candidates
    var Mxc: int
    var Mnc: int
    /** The pipe calls so far. */
    ghost var calls: seq<Event>

    ghost function Trees(): set<object>
      reads maxtree, mintree
    {
      maxtree.Footprint() + mintree.Footprint()
    }

    /** The live values, as the trees hold them. */
    ghost function Window(): multiset<int>
      reads maxtree, mintree
    {
      Bag(maxtree.tree) + Bag(mintree.tree)
    }

    /** Two sound trees that share nothing, ordered against each other. */
    ghost predicate Parted()
      reads maxtree, mintree, Nodes(maxtree.tree), Nodes(mintree.tree)
    {
      && 10 <= percentile <= 90 && required == Required(percentile)
      && maxtree.Valid() && mintree.Valid()
      && maxtree.Footprint() !! mintree.Footprint() && this !in maxtree.Footprint() && this !in mintree.Footprint()
      && Ordered(Bag(maxtree.tree), Bag(mintree.tree))
    }

    /** Such trees that hold at least as much as the counters say. */
    ghost predicate Shape()
      reads this`Mxc, this`Mnc, maxtree, mintree, Nodes(maxtree.tree), Nodes(mintree.tree)
    {
      Parted() && 0 <= Mxc <= |Bag(maxtree.tree)| && 0 <= Mnc <= |Bag(mintree.tree)|
    }

    /** The counters are the tree sizes, and the trees' own counters are right. */
    ghost predicate Exact()
      reads this`Mxc, this`Mnc, maxtree, mintree
    {
      && Mxc == |Bag(maxtree.tree)| && Mnc == |Bag(mintree.tree)|
      && maxtree.Drift() == 0 && mintree.Drift() == 0
    }

    ghost predicate Valid()
      reads this, maxtree, mintree, Nodes(maxtree.tree), Nodes(mintree.tree)
    {
      && Shape() && Exact()
      && Share(percentile, Mxc, Mxc + Mnc)
      && Published(percentile, Window(), candidates)
    }

    /** Values have only crossed the seam: the window is the same, the counters have
        followed, and the trees have grown by new nodes only. */
    twostate predicate Moved()
      reads this, maxtree, mintree
    {
      && Window() == old(Window()) && Mxc + Mnc == old(Mxc + Mnc) && candidates == old(candidates) && calls == old(calls)
      && |Bag(maxtree.tree)| - Mxc == old(|Bag(maxtree.tree)| - Mxc)
      && |Bag(mintree.tree)| - Mnc == old(|Bag(mintree.tree)| - Mnc)
      && maxtree.Drift() == old(maxtree.Drift()) && mintree.Drift() == old(mintree.Drift())
      && fresh(Trees() - old(Trees()))
    }

    constructor (percentile: int)
      ensures Valid() && fresh(Trees())
      ensures this.percentile == Clamp(percentile) && required == Required(Clamp(percentile))
      ensures maxtree.tree == Leaf && mintree.tree == Leaf && Mxc == Mnc == 0 && calls == []
    {
      var p := Clamp(percentile);
      this.percentile := p;
      required := Required(p);
      mintree := new BinTree();
      maxtree := new BinTree();
      candidates := NO_CANDIDATES;
      Mxc, Mnc := 0, 0;
      calls := [];
      new;
      CandidatesRight(p, Leaf, Leaf);
    }

    /** Publishes the candidates at the seam. */
    method Pipe()
      requires Shape()
      modifies `candidates
      ensures candidates == Choice(percentile, maxtree.tree, mintree.tree, Mxc, Mnc)
    {
      if Mnc + Mxc < required {
        candidates := NO_CANDIDATES;
        return;
      }
      var left, right := None, None;
      if RatioBelow(percentile, Mxc, Mnc) {
        left := maxtree.GetTopData();
      } else if RatioAbove(percentile, Mxc, Mnc) {
        right := mintree.GetBottomData();
      } else {
        left := maxtree.GetTopData();
        right := mintree.GetBottomData();
      }
      candidates := Candidates(true, left, right);
    }

    method InsertLow(item: Ref)
      requires Parted() && Ordered(Bag(maxtree.tree) + multiset{item.key}, Bag(mintree.tree))
      modifies Trees()
      ensures Parted() && mintree.tree == old(mintree.tree) && mintree.Drift() == old(mintree.Drift())
      ensures Bag(maxtree.tree) == old(Bag(maxtree.tree)) + multiset{item.key} && maxtree.Drift() == old(maxtree.Drift())
      ensures RootKey(maxtree.tree) == if old(maxtree.tree).Leaf? then Some(item.key) else RootKey(old(maxtree.tree))
      ensures fresh(Trees() - old(Trees()))
    {
      hide BinTree.Valid, Search, Nodes, Bag, Kept, Loss, Ordered, RootKey;
      maxtree.Allocated();
      mintree.Allocated();
      maxtree.InsertData(item);
    }

    method InsertHigh(item: Ref)
      requires Parted() && Ordered(Bag(maxtree.tree), Bag(mintree.tree) + multiset{item.key})
      modifies Trees()
      ensures Parted() && maxtree.tree == old(maxtree.tree) && maxtree.Drift() == old(maxtree.Drift())
      ensures Bag(mintree.tree) == old(Bag(mintree.tree)) + multiset{item.key} && mintree.Drift() == old(mintree.Drift())
      ensures fresh(Trees() - old(Trees()))
    {
      hide BinTree.Valid, Search, Nodes, Bag, Kept, Loss, Ordered, RootKey;
      maxtree.Allocated();
      mintree.Allocated();
      mintree.InsertData(item);
    }

    method DeleteLow(key: int)
      requires Parted()
      modifies Trees()
      ensures Parted() && mintree.tree == old(mintree.tree) && mintree.Drift() == old(mintree.Drift())
      ensures Bag(maxtree.tree) == old(Bag(maxtree.tree)) - multiset{key}
      ensures maxtree.Drift() == old(maxtree.Drift()) + Loss(old(maxtree.tree), key)
      ensures Trees() <= old(Trees())
    {
      hide BinTree.Valid, Search, Nodes, Bag, Kept, Loss, Ordered;
      maxtree.Allocated();
      mintree.Allocated();
      OrderedSub(Bag(maxtree.tree), Bag(mintree.tree), key);
      maxtree.DeleteValue(key);
    }

    method DeleteHigh(key: int)
      requires Parted()
      modifies Trees()
      ensures Parted() && maxtree.tree == old(maxtree.tree) && maxtree.Drift() == old(maxtree.Drift())
      ensures Bag(mintree.tree) == old(Bag(mintree.tree)) - multiset{key}
      ensures mintree.Drift() == old(mintree.Drift()) + Loss(old(mintree.tree), key)
      ensures Trees() <= old(Trees())
    {
      hide BinTree.Valid, Search, Nodes, Bag, Kept, Loss, Ordered;
      maxtree.Allocated();
      mintree.Allocated();
      OrderedSub(Bag(maxtree.tree), Bag(mintree.tree), key);
      mintree.DeleteValue(key);
    }

    /** Changes the two counters. */
    method Count(low: int, high: int)
      requires Parted()
      modifies `Mxc, `Mnc
      ensures Parted() && Mxc == old(Mxc) + low && Mnc == old(Mnc) + high
    {
      hide Search, Bag, Ordered;
      Mxc := Mxc + low;
      Mnc := Mnc + high;
    }

    ghost method Book(e: Event)
      requires Parted()
      modifies `calls
      ensures Parted() && calls == old(calls) + [e]
    {
      hide Search, Bag, Ordered;
      calls := calls + [e];
    }

    /** Moves the least value of the upper tree down. */
    method ReduceMintree()
      requires Shape() && Mnc > 0
      modifies this, Trees()
      ensures Shape() && Moved() && Mnc == old(Mnc) - 1
    {
      hide BinTree.Valid, Search, Nodes, Bag, Kept, Loss, Ordered, Published, BinTree.Footprint;
      maxtree.IsSearchTree();
      mintree.IsSearchTree();
      BottomMoves(maxtree.tree, mintree.tree);
      var data := mintree.GetBottomData();
      DeleteHigh(data.value.key);
      label Deleted:
      InsertLow(data.value);
      Count(1, -1);
      forall o | o in Trees() && o !in old(Trees()) ensures fresh(o) {
        assert o in old@Deleted(Trees()) || fresh@Deleted(o);
      }
    }

    /** Moves the greatest value of the lower tree up. */
    method ReduceMaxtree()
      requires Shape() && Mxc > 0
      modifies this, Trees()
      ensures Shape() && Moved() && Mxc == old(Mxc) - 1
    {
      hide BinTree.Valid, Search, Nodes, Bag, Kept, Loss, Ordered, Published, BinTree.Footprint;
      maxtree.IsSearchTree();
      mintree.IsSearchTree();
      TopMoves(maxtree.tree, mintree.tree);
      var data := maxtree.GetTopData();
      DeleteLow(data.value.key);
      label Deleted:
      InsertHigh(data.value);
      Count(-1, 1);
      forall o | o in Trees() && o !in old(Trees()) ensures fresh(o) {
        assert o in old@Deleted(Trees()) || fresh@Deleted(o);
      }
    }

    /** Takes values from the lower tree while that leaves it its share. */
    method Shrink()
      requires Shape() && Mxc + Mnc >= required
      requires 100 * Mxc >= percentile * (Mxc + Mnc)
      modifies this, Trees()
      ensures Shape() && Moved() && Mxc == Ceil(percentile, Mxc + Mnc)
    {
      hide BinTree.Valid, Search, Nodes, Bag, Kept, Loss, Ordered, Published, RatioBelow, RatioAbove, Required, Ceil, Floor;
      ghost var n := Mxc + Mnc;
      while !(RatioAbove(percentile, Mxc - 1, Mnc + 1) || Mxc < 1)
        invariant Shape() && Moved() && 100 * Mxc >= percentile * n
        decreases Mxc
      {
        ShrinkGuard(percentile, Mxc, Mnc);
        label Round:
        ReduceMaxtree();
        forall o | o in Trees() && o !in old(Trees()) ensures fresh(o) {
          assert o in old@Round(Trees()) || fresh@Round(o);
        }
      }
      ShrinkGuard(percentile, Mxc, Mnc);
    }

    /** Gives the lower tree values while that does not exceed its share. */
    method Grow()
      requires Shape() && Mxc + Mnc >= required
      requires 100 * Mxc <= percentile * (Mxc + Mnc)
      modifies this, Trees()
      ensures Shape() && Moved() && Mxc == Floor(percentile, Mxc + Mnc)
    {
      hide BinTree.Valid, Search, Nodes, Bag, Kept, Loss, Ordered, Published, RatioBelow, RatioAbove, Required, Ceil, Floor;
      ghost var n := Mxc + Mnc;
      while !(RatioBelow(percentile, Mxc + 1, Mnc - 1) || Mnc < 1)
        invariant Shape() && Moved() && 100 * Mxc <= percentile * n
        decreases Mnc
      {
        GrowGuard(percentile, Mxc, Mnc);
        label Round:
        ReduceMintree();
        forall o | o in Trees() && o !in old(Trees()) ensures fresh(o) {
          assert o in old@Round(Trees()) || fresh@Round(o);
        }
      }
      GrowGuard(percentile, Mxc, Mnc);
    }

    /** Moves values across the seam until the lower tree holds its settled share. */
    method Balancer()
      requires Shape()
      modifies this, Trees()
      ensures Shape() && Moved()
      ensures Mxc == if Mxc + Mnc < required then old(Mxc) else Settled(percentile, old(Mxc), Mxc + Mnc)
      ensures Mxc + Mnc < required ==> maxtree.tree == old(maxtree.tree) && mintree.tree == old(mintree.tree)
    {
      hide BinTree.Valid, Search, Nodes, Bag, Kept, Loss, Ordered, Published, Ceil, Floor, BinTree.Footprint, RatioBelow, Required;
      if Mxc + Mnc < required {
        return;
      }
      Side(percentile, Mxc, Mnc);
      if Mnc == 0 {
        Shrink();
      } else if Mxc == 0 {
        Grow();
      } else if RatioBelow(percentile, Mxc, Mnc) {
        Shrink();
      } else {
        Grow();
      }
    }

    /** What an add needs: no value above while too few are counted, else a lower maximum to
        look at. */
    ghost predicate Ready()
      reads this`Mxc, this`Mnc, maxtree, mintree
    {
      if Mxc + Mnc < required then Bag(mintree.tree) == multiset{} else maxtree.tree.Fork?
    }

    /** A new value: into the lower tree while too few are counted or when it does not exceed
        that tree's maximum, else into the upper tree.  The source reads that maximum
        without checking that there is one.  Counters that are right stay right, and then so
        is what is published. */
    method AddPipe(item: Ref)
      requires Shape() && Ready()
      modifies this, Trees()
      ensures Shape() && (old(Valid()) ==> Valid()) && calls == old(calls) + [Added(item)]
      ensures Window() == old(Window()) + multiset{item.key}
      ensures maxtree.Drift() == old(maxtree.Drift()) && mintree.Drift() == old(mintree.Drift())
      ensures Mxc + Mnc == old(Mxc + Mnc) + 1
      ensures Mxc == Rebalanced(percentile, old(Mxc) + (if old(GoesLow(item.key)) then 1 else 0), Mxc + Mnc)
      ensures candidates == Choice(percentile, maxtree.tree, mintree.tree, Mxc, Mnc)
      ensures Mxc + Mnc < required ==> Ready() && RootKey(maxtree.tree) == if old(maxtree.tree).Leaf? then Some(item.key) else RootKey(old(maxtree.tree))
      ensures fresh(Trees() - old(Trees()))
    {
      hide BinTree.Valid, Search, Nodes, Bag, Kept, Loss, Ordered, Published, Settled, RatioBelow, Required, Choice, RootKey, BinTree.Footprint;
      Store(item);
      label Stored:
      Settle();
      forall o | o in Trees() && o !in old(Trees()) ensures fresh(o) {
        assert o in old@Stored(Trees()) || fresh@Stored(o);
      }
    }

    /** Balances and publishes. */
    method Settle()
      requires Shape()
      modifies this, Trees()
      ensures Shape() && Window() == old(Window()) && calls == old(calls)
      ensures Exact() <==> old(Exact())
      ensures old(Exact() && (Mxc + Mnc < required ==> Mnc == 0)) ==> Valid()
      ensures maxtree.Drift() == old(maxtree.Drift()) && mintree.Drift() == old(mintree.Drift())
      ensures Mxc + Mnc == old(Mxc + Mnc) && Mxc == Rebalanced(percentile, old(Mxc), Mxc + Mnc)
      ensures Mxc + Mnc < required ==> maxtree.tree == old(maxtree.tree) && mintree.tree == old(mintree.tree)
      ensures candidates == Choice(percentile, maxtree.tree, mintree.tree, Mxc, Mnc)
      ensures fresh(Trees() - old(Trees()))
    {
      hide BinTree.Valid, Search, Nodes, Bag, Kept, Loss, Ordered, Published, RatioBelow, Choice;
      Balancer();
      maxtree.Allocated();
      mintree.Allocated();
      if Exact() && Share(percentile, Mxc, Mxc + Mnc) {
        ChoiceRight();
      }
      Pipe();
    }

    ghost predicate GoesLow(key: int)
      reads this`Mxc, this`Mnc, maxtree
    {
      Mxc + Mnc < required || (maxtree.tree.Fork? && key <= Rightmost(maxtree.tree).data.key)
    }

    method StoreLow(item: Ref)
      requires Shape() && Ordered(Bag(maxtree.tree) + multiset{item.key}, Bag(mintree.tree))
      modifies this, Trees()
      ensures Shape() && calls == old(calls) + [Added(item)]
      ensures Mxc == old(Mxc) + 1 && Mnc == old(Mnc)
      ensures Bag(maxtree.tree) == old(Bag(maxtree.tree)) + multiset{item.key} && mintree.tree == old(mintree.tree)
      ensures maxtree.Drift() == old(maxtree.Drift()) && mintree.Drift() == old(mintree.Drift())
      ensures RootKey(maxtree.tree) == if old(maxtree.tree).Leaf? then Some(item.key) else RootKey(old(maxtree.tree))
      ensures fresh(Trees() - old(Trees()))
    {
      hide BinTree.Valid, Search, Nodes, Bag, Kept, Loss, Ordered, RootKey, BinTree.Footprint;
      InsertLow(item);
      Count(1, 0);
      Book(Added(item));
    }

    method StoreHigh(item: Ref)
      requires Shape() && Ordered(Bag(maxtree.tree), Bag(mintree.tree) + multiset{item.key})
      modifies this, Trees()
      ensures Shape() && calls == old(calls) + [Added(item)]
      ensures Mxc == old(Mxc) && Mnc == old(Mnc) + 1
      ensures maxtree.tree == old(maxtree.tree) && Bag(mintree.tree) == old(Bag(mintree.tree)) + multiset{item.key}
      ensures maxtree.Drift() == old(maxtree.Drift()) && mintree.Drift() == old(mintree.Drift())
      ensures fresh(Trees() - old(Trees()))
    {
      hide BinTree.Valid, Search, Nodes, Bag, Kept, Loss, Ordered, RootKey, BinTree.Footprint;
      InsertHigh(item);
      Count(0, 1);
      Book(Added(item));
    }

    method Store(item: Ref)
      requires Shape() && Ready()
      modifies this, Trees()
      ensures Shape() && (Exact() <==> old(Exact())) && calls == old(calls) + [Added(item)]
      ensures Window() == old(Window()) + multiset{item.key}
      ensures maxtree.Drift() == old(maxtree.Drift()) && mintree.Drift() == old(mintree.Drift())
      ensures Mxc == old(Mxc) + (if old(GoesLow(item.key)) then 1 else 0)
      ensures Mnc == old(Mnc) + (if old(GoesLow(item.key)) then 0 else 1)
      ensures Mxc + Mnc < required ==> mintree.tree == old(mintree.tree) && Ready()
      ensures Mxc + Mnc < required ==> RootKey(maxtree.tree) == if old(maxtree.tree).Leaf? then Some(item.key) else RootKey(old(maxtree.tree))
      ensures old(Mxc + Mnc) < required ==> Mnc == 0
      ensures fresh(Trees() - old(Trees()))
    {
      hide BinTree.Valid, Search, Nodes, Bag, Kept, Loss, Ordered, Published, RootKey;
      maxtree.IsSearchTree();
      mintree.IsSearchTree();
      ItemFits(maxtree.tree, mintree.tree, item.key);
      if Mxc + Mnc < required || item.key <= maxtree.GetTopData().value.key {
        StoreLow(item);
      } else {
        StoreHigh(item);
      }
    }

    /** The maximum an add looks at is there. */
    lemma LowerTreeReady()
      requires Valid()
      ensures Ready() <==> Mxc + Mnc < required || Mxc > 0
    {
      BagSize(maxtree.tree);
    }

    /** It is missing only with as many values as required, when these are less than one rank. */
    lemma NotReady()
      requires Valid() && !Ready()
      ensures Mxc + Mnc == required && percentile * required < 100
    {
      LowerTreeReady();
      StrandedShare(percentile, Mnc);
    }

    function HasMaximum(): (ready: bool)
      requires Valid()
      reads this, maxtree, mintree, Nodes(maxtree.tree), Nodes(mintree.tree)
      ensures ready <==> Ready()
    {
      LowerTreeReady();
      Mxc + Mnc < required || maxtree.GetTopData().Some?
    }

    /** While too few are counted every value goes low. */
    lemma FirstGoLow()
      ensures Mxc + Mnc < required ==> forall key :: GoesLow(key)
    {
    }

    lemma RequiredNumber()
      requires Valid()
      ensures 10 <= percentile <= 90 && required == Required(percentile)
    {
    }

    lemma ShapeRequired()
      requires Shape()
      ensures 10 <= percentile <= 90 && required == Required(percentile)
    {
    }

    lemma SearchTrees()
      requires Valid()
      ensures Search(maxtree.tree) && Search(mintree.tree)
    {
      maxtree.IsSearchTree();
      mintree.IsSearchTree();
    }

    lemma ValidShape()
      requires Valid()
      ensures Shape()
    {
    }

    lemma EmptyWindow()
      requires maxtree.tree == Leaf && mintree.tree == Leaf
      ensures Window() == multiset{}
    {
    }

    /** A safe removal. */
    lemma SafeHere(key: int)
      requires Valid() && SafeRemoval(Window(), key) && key in Window()
      ensures Loss(maxtree.tree, key) == 0 && Loss(mintree.tree, key) == 0
      ensures !(key in Bag(maxtree.tree) && key in Bag(mintree.tree))
    {
      hide Bag, Loss, SafeRemoval, Search, Ordered, Published;
      maxtree.IsSearchTree();
      mintree.IsSearchTree();
      SafeMeans(maxtree.tree, mintree.tree, key);
    }

    lemma CountersCount()
      requires Valid()
      ensures Mxc + Mnc == |Window()|
    {
    }

    /** Every key of the lower tree is a live value. */
    lemma LowKeys()
      requires Valid()
      ensures maxtree.tree.Fork? ==> Rightmost(maxtree.tree).data.key in Window()
    {
      if maxtree.tree.Fork? {
        RightmostMax(maxtree.tree);
        BagDomain(maxtree.tree);
      }
    }

    /** The least live value is in the lower tree, and nowhere else when it is live once. */
    lemma LeastIsLow(least: int)
      requires Valid() && Mxc > 0
      requires least in Window() && forall x :: x in Window() ==> least <= x
      ensures least in Bag(maxtree.tree)
    {
      hide BinTree.Valid, BinTree.Footprint, Bag, Published;
      Exactly();
      LowestLow(Bag(maxtree.tree), Bag(mintree.tree), least);
    }

    lemma Exactly()
      requires Valid()
      ensures Mxc == |Bag(maxtree.tree)| && Mnc == |Bag(mintree.tree)| && Ordered(Bag(maxtree.tree), Bag(mintree.tree))
    {
      hide BinTree.Valid, BinTree.Footprint, Bag, Published;
    }

    /** What a valid plugin has published, on the sorted window. */
    lemma SortedWindow(window: seq<int>)
      requires Valid() && Window() == multiset(window)
      ensures NearestRank(percentile, Sort(window), candidates)
    {
    }

    /** Exact counters at their share: the candidates about to be published are right. */
    lemma ChoiceRight()
      requires Shape() && Exact() && Share(percentile, Mxc, Mxc + Mnc)
      ensures Published(percentile, Window(), Choice(percentile, maxtree.tree, mintree.tree, Mxc, Mnc))
    {
      CandidatesRight(percentile, maxtree.tree, mintree.tree);
    }

    /** A value that left the window is deleted from both trees.  The window loses exactly
        that value when the trees do not both hold it; the counters are then short of it by
        the references that the deletions lose, and what is published goes by the counters. */
    method RemPipe(item: Ref)
      requires Valid()
      modifies this, Trees()
      ensures Shape() && calls == old(calls) + [Removed(item)]
      ensures Window() == (old(Bag(maxtree.tree)) - multiset{item.key}) + (old(Bag(mintree.tree)) - multiset{item.key})
      ensures Window() == old(Window()) - multiset{item.key} <==> !(item.key in old(Bag(maxtree.tree)) && item.key in old(Bag(mintree.tree)))
      ensures maxtree.Drift() == Loss(old(maxtree.tree), item.key) && mintree.Drift() == Loss(old(mintree.tree), item.key)
      ensures Mxc + Mnc == |Window()| - Loss(old(maxtree.tree), item.key) - Loss(old(mintree.tree), item.key)
      ensures candidates == Choice(percentile, maxtree.tree, mintree.tree, Mxc, Mnc)
      ensures Valid() <==> Loss(old(maxtree.tree), item.key) == 0 && Loss(old(mintree.tree), item.key) == 0
      ensures Mxc + Mnc >= required ==>
                Mxc == Settled(percentile, |old(Bag(maxtree.tree)) - multiset{item.key}| - Loss(old(maxtree.tree), item.key), Mxc + Mnc)
      ensures Mxc + Mnc < required ==> |Bag(mintree.tree)| == Loss(old(mintree.tree), item.key)
      ensures fresh(Trees() - old(Trees()))
    {
      hide BinTree.Valid, Search, Nodes, Bag, Kept, Loss, Ordered, Published, Settled, RatioBelow, Required, BinTree.Footprint, Choice, Percentile.Trees, BinTree.Drift;
      TwiceDeleted(Bag(maxtree.tree), Bag(mintree.tree), item.key);
      maxtree.IsSearchTree();
      mintree.IsSearchTree();
      LossBound(maxtree.tree, item.key);
      LossBound(mintree.tree, item.key);
      Drop(item);
      label Dropped:
      Resettle();
      forall o | o in Trees() && o !in old(Trees()) ensures fresh(o) {
        assert o in old@Dropped(Trees()) || fresh@Dropped(o);
      }
    }

    /** Empties the upper tree as far as it is counted when too few values are; balances and
        publishes. */
    method Resettle()
      requires Shape()
      modifies this, Trees()
      ensures Shape() && Window() == old(Window()) && calls == old(calls)
      ensures (Exact() <==> old(Exact())) && (old(Exact()) ==> Valid())
      ensures maxtree.Drift() == old(maxtree.Drift()) && mintree.Drift() == old(mintree.Drift())
      ensures Mxc + Mnc == old(Mxc + Mnc)
      ensures Mxc + Mnc >= required ==> Mxc == Settled(percentile, old(Mxc), Mxc + Mnc)
      ensures Mxc + Mnc < required ==> |Bag(mintree.tree)| == old(|Bag(mintree.tree)| - Mnc)
      ensures candidates == Choice(percentile, maxtree.tree, mintree.tree, Mxc, Mnc)
      ensures fresh(Trees() - old(Trees()))
    {
      hide BinTree.Valid, Search, Nodes, Bag, Kept, Loss, Ordered, Published, Settled, RatioBelow, Choice, BinTree.Footprint;
      if Mxc + Mnc < required {
        Gather();
      }
      label Gathered:
      Settle();
      forall o | o in Trees() && o !in old(Trees()) ensures fresh(o) {
        assert o in old@Gathered(Trees()) || fresh@Gathered(o);
      }
    }

    method Drop(item: Ref)
      requires Valid()
      modifies this, Trees()
      ensures Shape() && calls == old(calls) + [Removed(item)]
      ensures Bag(maxtree.tree) == old(Bag(maxtree.tree)) - multiset{item.key}
      ensures Bag(mintree.tree) == old(Bag(mintree.tree)) - multiset{item.key}
      ensures Mxc == |Bag(maxtree.tree)| - Loss(old(maxtree.tree), item.key) && maxtree.Drift() == Loss(old(maxtree.tree), item.key)
      ensures Mnc == |Bag(mintree.tree)| - Loss(old(mintree.tree), item.key) && mintree.Drift() == Loss(old(mintree.tree), item.key)
      ensures Trees() <= old(Trees())
    {
      hide BinTree.Valid, Search, Nodes, Bag, Kept, Loss, Ordered, Published, BinTree.Footprint;
      maxtree.IsSearchTree();
      mintree.IsSearchTree();
      LossBound(maxtree.tree, item.key);
      LossBound(mintree.tree, item.key);
      DeleteLow(item.key);
      DeleteHigh(item.key);
      Recount(item);
    }

    /** Takes the counters from the trees after a deletion. */
    method Recount(ghost item: Ref)
      requires Parted()
      requires 0 <= maxtree.Drift() <= |Bag(maxtree.tree)| && 0 <= mintree.Drift() <= |Bag(mintree.tree)|
      modifies `Mxc, `Mnc, `calls
      ensures calls == old(calls) + [Removed(item)]
      ensures Shape() && Mxc == |Bag(maxtree.tree)| - maxtree.Drift() && Mnc == |Bag(mintree.tree)| - mintree.Drift()
    {
      hide Search, Bag, Kept, Loss, Ordered;
      calls := calls + [Removed(item)];
      Mxc := maxtree.GetRefnum();
      Mnc := mintree.GetRefnum();
    }

    /** Pops everything the upper tree is known to hold into the lower tree. */
    method Gather()
      requires Shape()
      modifies this, Trees()
      ensures Shape() && Moved() && Mnc == 0
    {
      hide BinTree.Valid, Search, Nodes, Bag, Kept, Loss, Ordered, Published;
      while 0 < Mnc
        invariant Shape() && Moved()
        decreases Mnc
      {
        label Round:
        ReduceMintree();
        forall o | o in Trees() && o !in old(Trees()) ensures fresh(o) {
          assert o in old@Round(Trees()) || fresh@Round(o);
        }
      }
    }
  }

  ghost predicate OnceEach(m: multiset<int>) {
    forall x :: m[x] <= 1
  }

  /** A deletion never loses more references than the tree keeps; it loses none when every
      key is referenced once. */
  lemma {:induction false} LossBound(t: Tree, key: int)
    requires Search(t)
    ensures 0 <= Loss(t, key) <= |Bag(t) - multiset{key}|
    ensures OnceEach(Bag(t)) ==> Loss(t, key) == 0
  {
    var s := Find(t, key);
    FindBag(t, key);
    if s.Fork? && s.count == 1 && TwoChildren(s) {
      var p := Rightmost(s.left);
      PredecessorOut(s.left);
      GraftBelow(t, key, p.data.key, Leaf);
      FindSide(t, key, p.data.key);
      FindBag(t, p.data.key);
      MultiplicityBound(Bag(t) - multiset{key}, p.data.key);
    }
  }

  lemma MultiplicityBound(m: multiset<int>, x: int)
    ensures m[x] <= |m|
  {
    assert m == m[x := 0] + multiset{}[x := m[x]];
    SingleBag(x, m[x]);
  }

  lemma OrderedSub(a: multiset<int>, b: multiset<int>, x: int)
    requires Ordered(a, b)
    ensures Ordered(a - multiset{x}, b) && Ordered(a, b - multiset{x})
  {
  }

  /** The least of two ordered bags is in the lower one, if that holds anything. */
  lemma LowestLow(lower: multiset<int>, upper: multiset<int>, least: int)
    requires |lower| > 0 && Ordered(lower, upper)
    requires least in lower + upper && forall x :: x in lower + upper ==> least <= x
    ensures least in lower
  {
    if forall x :: x !in lower {
      assert false;
    }
    var x :| x in lower;
    assert x in lower + upper;
  }

  lemma TwiceDeleted(a: multiset<int>, b: multiset<int>, key: int)
    ensures var k := multiset{key};
            && ((a - k) + (b - k) == a + b - k <==> !(key in a && key in b))
            && |a - k| == |a| - (if key in a then 1 else 0)
  {
    var k := multiset{key};
    assert ((a - k) + (b - k))[key] == (if key in a then a[key] - 1 else 0) + (if key in b then b[key] - 1 else 0);
    if key in a {
      assert a == (a - k) + k;
    } else {
      assert a - k == a;
    }
  }

  /** The value is live once, and so is the next smaller live value. */
  ghost predicate SafeRemoval(live: multiset<int>, key: int) {
    live[key] <= 1 && forall y :: y < key && live[y] > 1 ==> exists z :: y < z < key && z in live
  }

  lemma {:induction false} PredecessorAdjacent(t: Tree, key: int, z: int)
    requires Search(t) && Find(t, key).Fork? && Find(t, key).left.Fork? && z in KeySet(t) && z < key
    ensures z <= Rightmost(Find(t, key).left).data.key
  {
    if key < t.data.key {
      PredecessorAdjacent(t.left, key, z);
    } else if t.data.key < key {
      FindBag(t, key);
      RightmostMax(Find(t, key).left);
      FindSide(t.right, key, Rightmost(Find(t, key).left).data.key);
      if z in KeySet(t.right) { PredecessorAdjacent(t.right, key, z); }
    } else {
      RightmostMax(t.left);
    }
  }

  /** What a deletion loses are references to the next smaller key of the same tree. */
  lemma {:induction false} LossMeans(t: Tree, key: int) returns (y: int)
    requires Search(t) && Loss(t, key) != 0
    ensures key in Bag(t) && y < key && Bag(t)[y] == Loss(t, key) + 1
    ensures forall z :: z in Bag(t) && z < key ==> z <= y
  {
    var s := Find(t, key);
    var p := Rightmost(s.left);
    y := p.data.key;
    FindBag(t, key);
    BagDomain(t);
    PredecessorOut(s.left);
    GraftBelow(t, key, y, Leaf);
    FindSide(t, key, y);
    FindBag(t, y);
    forall z | z in Bag(t) && z < key ensures z <= y {
      PredecessorAdjacent(t, key, z);
    }
  }

  /** A safe removal takes one value out of the window and keeps the counters right. */
  lemma {:induction false} SafeMeans(lower: Tree, upper: Tree, key: int)
    requires Search(lower) && Search(upper) && Ordered(Bag(lower), Bag(upper))
    requires SafeRemoval(Bag(lower) + Bag(upper), key)
    ensures !(key in Bag(lower) && key in Bag(upper)) && Loss(lower, key) == 0 && Loss(upper, key) == 0
  {
    hide Search, Bag, Loss, SafeRemoval;
    assert Bag(lower) + Bag(upper) == Bag(upper) + Bag(lower);
    SafeOnce(Bag(lower), Bag(upper), key);
    SafeIn(lower, Bag(upper), key);
    SafeIn(upper, Bag(lower), key);
  }

  lemma SafeOnce(a: multiset<int>, b: multiset<int>, key: int)
    requires SafeRemoval(a + b, key)
    ensures !(key in a && key in b)
  {
  }

  lemma {:induction false} SafeIn(t: Tree, other: multiset<int>, key: int)
    requires Search(t) && SafeRemoval(Bag(t) + other, key)
    requires Ordered(Bag(t), other) || Ordered(other, Bag(t))
    ensures Loss(t, key) == 0
  {
    hide Loss, Search, Bag, Ordered, SafeRemoval;
    LossBound(t, key);
    if Loss(t, key) != 0 {
      var y := LossMeans(t, key);
      NoneBetween(Bag(t), other, key, y);
      assert false;
    }
  }

  lemma NoneBetween(a: multiset<int>, other: multiset<int>, key: int, y: int)
    requires key in a && y in a && y < key && SafeRemoval(a + other, key)
    requires Ordered(a, other) || Ordered(other, a)
    requires forall z :: z in a && z < key ==> z <= y
    ensures a[y] <= 1
  {
    assert (a + other)[y] >= a[y];
    assert forall z :: z in a + other ==> z in a || z in other;
  }

  /** The lower tree's size after the balancer has run. */
  function Rebalanced(p: int, lower: int, n: int): int
    requires 10 <= p <= 90
  {
    if n < Required(p) then lower else Settled(p, lower, n)
  }

  /** A value not above the lower maximum keeps the trees ordered below, any other above. */
  lemma {:induction false} ItemFits(lower: Tree, upper: Tree, x: int)
    requires Search(lower) && Search(upper) && Ordered(Bag(lower), Bag(upper))
    ensures |Bag(lower)| > 0 <==> lower.Fork?
    ensures |Bag(upper)| == 0 || (lower.Fork? && x <= Rightmost(lower).data.key) ==> Ordered(Bag(lower) + multiset{x}, Bag(upper))
    ensures lower.Leaf? || Rightmost(lower).data.key < x ==> Ordered(Bag(lower), Bag(upper) + multiset{x})
    ensures |Bag(lower) + multiset{x}| == |Bag(lower)| + 1 && |Bag(upper) + multiset{x}| == |Bag(upper)| + 1
    ensures Bag(lower) + multiset{x} + Bag(upper) == Bag(lower) + Bag(upper) + multiset{x} == Bag(lower) + (Bag(upper) + multiset{x})
  {
    hide Bag, Search, Rightmost;
    BagSize(lower);
    BagDomain(lower);
    if lower.Fork? { RightmostMax(lower); }
    if |Bag(upper)| == 0 {
      assert forall y :: y in Bag(upper) ==> |Bag(upper)| > 0;
    }
  }

  /** What is read off two balanced trees is the nearest-rank percentile of the window. */
  lemma {:induction false} CandidatesRight(p: int, lower: Tree, upper: Tree)
    requires 10 <= p <= 90
    requires Search(lower) && Search(upper) && Ordered(Bag(lower), Bag(upper))
    requires Share(p, |Bag(lower)|, |Bag(lower)| + |Bag(upper)|)
    ensures Published(p, Bag(lower) + Bag(upper), Choice(p, lower, upper, |Bag(lower)|, |Bag(upper)|))
  {
    hide Bag, Keys, Search, Ordered, NearestRank, Choice, Ascending;
    var mx, mn := |Bag(lower)|, |Bag(upper)|;
    forall s: seq<int> | Ascending(s) && multiset(s) == Bag(lower) + Bag(upper)
      ensures NearestRank(p, s, Choice(p, lower, upper, mx, mn))
    {
      TwoTreesSorted(lower, upper, s);
      SeamRight(p, lower, upper);
    }
  }

  lemma {:induction false} SeamRight(p: int, lower: Tree, upper: Tree)
    requires 10 <= p <= 90
    requires Search(lower) && Search(upper)
    requires |Keys(lower)| == |Bag(lower)| && |Keys(upper)| == |Bag(upper)|
    requires Share(p, |Bag(lower)|, |Bag(lower)| + |Bag(upper)|)
    ensures NearestRank(p, Keys(lower) + Keys(upper), Choice(p, lower, upper, |Bag(lower)|, |Bag(upper)|))
  {
    hide Bag, Keys, Search, Rightmost, Leftmost, Required, RatioBelow, RatioAbove;
    var mx, mn := |Bag(lower)|, |Bag(upper)|;
    if mx + mn >= Required(p) {
      SeamArithmetic(p, mx, mn);
      BagSize(lower);
      BagSize(upper);
      if lower.Fork? { LastKey(lower); }
      if upper.Fork? { FirstKey(upper); }
    }
  }

  /** Comparing the counters' ratio with the target compares the lower share with p*n/100. */
  lemma RatioMeans(p: int, mx: int, mn: int)
    requires 10 <= p <= 90 && mx >= 0 && mn >= 0 && mx + mn > 0
    ensures RatioBelow(p, mx, mn) <==> 100 * mx > p * (mx + mn)
    ensures RatioAbove(p, mx, mn) <==> 100 * mx < p * (mx + mn)
  {
    Distribute(p, mx + mn, mx);
    Distribute(mx, 100, p);
    assert p * mn == p * (mx + mn) - p * mx;
    assert (100 - p) * mx == 100 * mx - p * mx;
    if mn == 0 { assert (100 - p) * mx > 0; }
  }

  /** Which way the balancer has to go. */
  lemma Side(p: int, mx: int, mn: int)
    requires 10 <= p <= 90 && mx >= 0 && mn >= 0 && mx + mn >= Required(p)
    ensures mn == 0 ==> 100 * mx > p * (mx + mn)
    ensures mx == 0 ==> 100 * mx <= p * (mx + mn)
    ensures mx > 0 && mn > 0 ==> (RatioBelow(p, mx, mn) <==> 100 * mx > p * (mx + mn))
  {
    RatioMeans(p, mx, mn);
  }

  /** The lower tree is empty at its share only with the required number of values, when
      that is less than one whole rank. */
  lemma StrandedShare(p: int, n: int)
    requires 10 <= p <= 90 && n >= Required(p) && Share(p, 0, n)
    ensures n == Required(p) && p * n < 100
  {
    RequiredShare(p);
    Division(100 - p, p);
    Widen(p, Required(p), n);
    Widen(p, Required(p) + 1, n);
  }

  lemma Widen(p: int, k: int, n: int)
    requires p > 0
    ensures k <= n ==> p * k <= p * n
  {
  }

  /** What the loop conditions of the balancer say about the lower share. */
  lemma ShrinkGuard(p: int, mx: int, mn: int)
    requires 10 <= p <= 90 && mx >= 0 && mn >= 0 && mx + mn > 0
    ensures if RatioAbove(p, mx - 1, mn + 1) || mx < 1
            then 100 * mx >= p * (mx + mn) ==> mx == Ceil(p, mx + mn)
            else 100 * (mx - 1) >= p * (mx + mn)
  {
    if mx >= 1 { RatioMeans(p, mx - 1, mn + 1); }
  }

  lemma GrowGuard(p: int, mx: int, mn: int)
    requires 10 <= p <= 90 && mx >= 0 && mn >= 0 && mx + mn > 0
    ensures if RatioBelow(p, mx + 1, mn - 1) || mn < 1
            then 100 * mx <= p * (mx + mn) ==> mx == Floor(p, mx + mn)
            else 100 * (mx + 1) <= p * (mx + mn)
  {
    if mn >= 1 { RatioMeans(p, mx + 1, mn - 1); }
  }

  lemma {:induction false} SeamArithmetic(p: int, mx: int, mn: int)
    requires 10 <= p <= 90 && mx >= 0 && mn >= 0 && mx + mn >= Required(p)
    requires Share(p, mx, mx + mn)
    ensures var n := mx + mn;
            && 1 <= Ceil(p, n) <= n
            && (RatioBelow(p, mx, mn) ==> !RatioAbove(p, mx, mn) && p * n % 100 != 0 && mx == Ceil(p, n))
            && (RatioAbove(p, mx, mn) ==> p * n % 100 != 0 && mx == Ceil(p, n) - 1 && mn > 0)
            && (!RatioBelow(p, mx, mn) && !RatioAbove(p, mx, mn) ==> p * n % 100 == 0 && mx == Ceil(p, n) && mn > 0)
  {
    RatioMeans(p, mx, mn);
    SettledClose(p, mx, mx + mn);
  }

  /** The upper tree's least value may cross the seam; taking it out books right. */
  lemma {:induction false} BottomMoves(lower: Tree, upper: Tree)
    requires Search(lower) && Search(upper) && Ordered(Bag(lower), Bag(upper)) && |Bag(upper)| > 0
    ensures upper.Fork?
    ensures var x := Leftmost(upper).data.key;
            && x in Bag(upper) && Loss(upper, x) == 0
            && Ordered(Bag(lower) + multiset{x}, Bag(upper) - multiset{x})
            && (Bag(lower) + multiset{x}) + (Bag(upper) - multiset{x}) == Bag(lower) + Bag(upper)
            && |Bag(lower) + multiset{x}| == |Bag(lower)| + 1 && |Bag(upper) - multiset{x}| == |Bag(upper)| - 1
  {
    BagSize(upper);
    LeftmostMin(upper);
    BagDomain(upper);
  }

  lemma {:induction false} TopMoves(lower: Tree, upper: Tree)
    requires Search(lower) && Search(upper) && Ordered(Bag(lower), Bag(upper)) && |Bag(lower)| > 0
    ensures lower.Fork?
    ensures var x := Rightmost(lower).data.key;
            && x in Bag(lower) && Loss(lower, x) == 0
            && Ordered(Bag(lower) - multiset{x}, Bag(upper) + multiset{x})
            && (Bag(lower) - multiset{x}) + (Bag(upper) + multiset{x}) == Bag(lower) + Bag(upper)
            && |Bag(lower) - multiset{x}| == |Bag(lower)| - 1 && |Bag(upper) + multiset{x}| == |Bag(upper)| + 1
  {
    BagSize(lower);
    RightmostMax(lower);
    BagDomain(lower);
  }
}
