/**
 The reference-counted binary search tree with cached extreme nodes
 (src/lib/lib_bintree.c).

 The ghost field `tree` is the picture of the linked nodes; every method says which
 function of `TreeShape` it applies to that picture, and what it books in the two
 counters.  `Drift` is what `duplicateCounter` lacks: it is zero while the counters are
 right, and the methods say exactly when and by how much it grows.
 */
module BinTrees {
  import opened Options
  import opened TreeShape

  const RECYCLE_LIMIT := 32

  /** What deleting one reference to `key` loses from `duplicateCounter`: refilling a node
      from a predecessor with several references books those references as gone. */
  ghost function Loss(t: Tree, key: int): int {
    var s := Find(t, key);
    if s.Fork? && s.count == 1 && TwoChildren(s) then Rightmost(s.left).count - 1 else 0
  }

  ghost function Members(s: seq<Node>): set<Node> {
    set n | n in s
  }

  ghost predicate NoRepeat(s: seq<Node>) {
    s == [] || (s[|s| - 1] !in s[..|s| - 1] && NoRepeat(s[..|s| - 1]))
  }

  lemma NoRepeatTail(s: seq<Node>)
    requires s != [] && NoRepeat(s)
    ensures NoRepeat(s[1..]) && s[0] !in s[1..]
  {
    if |s| > 1 {
      NoRepeatTail(s[..|s| - 1]);
      assert s[1..][..|s| - 2] == s[..|s| - 1][1..];
    }
  }

  lemma NoRepeatAppend(s: seq<Node>, n: Node)
    requires NoRepeat(s) && n !in s
    ensures NoRepeat(s + [n])
  {
    assert (s + [n])[..|s|] == s;
  }

  class BinTree {
    var root: Node?
    var bottom: Node?
    var top: Node?
    var recycle: seq<Node>
    var nodeCounter: int
    var duplicateCounter: int
    ghost var tree: Tree

    ghost function Footprint(): set<object>
      reads `tree, `recycle
    {
      {this} + Nodes(tree) + Members(recycle)
    }

    lemma IsSearchTree()
      requires Valid()
      ensures Search(tree)
    {
    }

    lemma Allocated()
      ensures forall o :: o in Footprint() ==> allocated(o)
    {
      NodesAllocated(tree);
    }

    /** The recycled nodes are spare: distinct, few, and not linked into the tree. */
    ghost predicate Spare()
      reads `tree, `recycle
    {
      && |recycle| <= RECYCLE_LIMIT
      && NoRepeat(recycle)
      && (forall n :: n in recycle ==> n !in Nodes(tree))
    }

    ghost predicate Shape()
      reads `root, `tree, Nodes(tree)
    {
      && root == NodeOf(tree) && Linked(tree) && Distinct(tree) && Search(tree)
    }

    ghost predicate Valid()
      reads this, Nodes(tree)
    {
      && Shape() && Spare()
      && nodeCounter == Size(tree)
      && top == NodeOf(Rightmost(tree))
      && bottom == NodeOf(Leftmost(tree))
    }

    /** References the tree holds beyond those the two counters account for. */
    ghost function Drift(): int
      reads `tree, `duplicateCounter
    {
      Dups(tree) - duplicateCounter
    }

    constructor ()
      ensures Valid() && tree == Leaf && Drift() == 0
      ensures fresh(Footprint())
    {
      root, bottom, top := null, null, null;
      recycle := [];
      nodeCounter, duplicateCounter := 0, 0;
      tree := Leaf;
    }

    // -------------------------------------------------------------- walking

    static method GetRightestValue(node: Node?, ghost t: Tree) returns (result: Node?)
      requires node == NodeOf(t) && Linked(t)
      ensures result == NodeOf(Rightmost(t))
    {
      result := node;
      if node == null { return; }
      ghost var u := t;
      while result.right != null
        invariant u.Fork? && result == NodeOf(u) && Linked(u) && Rightmost(u) == Rightmost(t)
        decreases u
      {
        result := result.right;
        u := u.right;
      }
    }

    static method GetLeftestValue(node: Node?, ghost t: Tree) returns (result: Node?)
      requires node == NodeOf(t) && Linked(t)
      ensures result == NodeOf(Leftmost(t))
    {
      result := node;
      if node == null { return; }
      ghost var u := t;
      while result.left != null
        invariant u.Fork? && result == NodeOf(u) && Linked(u) && Leftmost(u) == Leftmost(t)
        decreases u
      {
        result := result.left;
        u := u.left;
      }
    }

    method SearchValue(key: int) returns (node: Node?, parent: Node?)
      requires Shape()
      ensures node == NodeOf(Find(tree, key))
      ensures parent == Parent(tree, key, null)
    {
      node, parent := root, null;
      ghost var u := tree;
      while node != null
        invariant node == NodeOf(u) && Linked(u)
        invariant Find(u, key) == Find(tree, key)
        invariant Parent(u, key, parent) == Parent(tree, key, null)
        decreases u
      {
        if key == node.data.key { break; }
        parent := node;
        if key < node.data.key {
          node := node.left;
          u := u.left;
        } else {
          node := node.right;
          u := u.right;
        }
      }
    }

    // -------------------------------------------------------------- cached extremes

    /** `s` is what hangs to the left of the old top node. */
    method RefreshTop(ghost s: Tree)
      requires top != null && Shape()
      requires top.left == NodeOf(s) && Linked(s)
      requires s.Fork? ==> NodeOf(Rightmost(s)) == NodeOf(Rightmost(tree))
      modifies `top
      ensures top == NodeOf(Rightmost(tree))
    {
      if top.left != null {
        top := GetRightestValue(top.left, s);
      } else {
        top := GetRightestValue(root, tree);
      }
    }

    method RefreshBottom(ghost s: Tree)
      requires bottom != null && Shape()
      requires bottom.right == NodeOf(s) && Linked(s)
      requires s.Fork? ==> NodeOf(Leftmost(s)) == NodeOf(Leftmost(tree))
      modifies `bottom
      ensures bottom == NodeOf(Leftmost(tree))
    {
      if bottom.right != null {
        bottom := GetLeftestValue(bottom.right, s);
      } else {
        bottom := GetLeftestValue(root, tree);
      }
    }

    // -------------------------------------------------------------- recycling

    method MakeNode(data: Ref) returns (node: Node)
      requires Spare()
      modifies `recycle, Members(recycle)
      ensures Spare()
      ensures node.data == data && node.ref == 1 && node.left == null && node.right == null
      ensures node !in Nodes(tree) && node !in recycle
      ensures if old(recycle) == [] then fresh(node) else node == old(recycle)[0]
      ensures recycle == old(if recycle == [] then [] else recycle[1..])
      ensures Members(recycle) <= Members(old(recycle))
    {
      if recycle == [] {
        NodesAllocated(tree);
        node := new Node(data);
      } else {
        NoRepeatTail(recycle);
        node := recycle[0];
        recycle := recycle[1..];
        node.data, node.ref, node.left, node.right := data, 1, null, null;
      }
    }

    /** Forgets a node that is no longer linked; a stale cached extreme is looked up again.
        `l` and `r` are what the node still points to. */
    method TrashNode(node: Node, ghost l: Tree, ghost r: Tree)
      requires Spare() && node !in Nodes(tree) && node !in recycle
      requires node == top || node == bottom ==> Shape()
      requires node.left == NodeOf(l) && Linked(l) && node.right == NodeOf(r) && Linked(r)
      requires node == top && l.Fork? ==> NodeOf(Rightmost(l)) == NodeOf(Rightmost(tree))
      requires node == bottom && r.Fork? ==> NodeOf(Leftmost(r)) == NodeOf(Leftmost(tree))
      modifies `top, `bottom, `recycle
      ensures Spare()
      ensures recycle == if |old(recycle)| < 32 then old(recycle) + [node] else old(recycle)
      ensures top == if node == old(top) then NodeOf(Rightmost(tree)) else old(top)
      ensures bottom == if node == old(bottom) then NodeOf(Leftmost(tree)) else old(bottom)
    {
      if node == top {
        NodesAllocated(tree);
        NodesAllocated(r);
        RefreshTop(l);
      }
      if node == bottom {
        RefreshBottom(r);
      }
      if |recycle| < RECYCLE_LIMIT {
        NoRepeatAppend(recycle, node);
        recycle := recycle + [node];
      }
    }

    // -------------------------------------------------------------- insertion

    /** Books `insert` on the node that has its key already. */
    method Join(actual: Node, insert: Node, ghost t: Tree)
      requires actual == NodeOf(t) && Linked(t) && Distinct(t) && t.Fork? && actual.data.key == insert.data.key
      requires insert !in Nodes(t) && insert !in Nodes(tree) && insert !in recycle && Spare() && insert != top && insert != bottom
      requires insert.left == null && insert.right == null
      modifies actual, `duplicateCounter, `recycle, `top, `bottom
      ensures Linked(Inserted(t, insert, insert.data, insert.ref))
      ensures insert.data == old(insert.data) && insert.ref == old(insert.ref)
      ensures duplicateCounter == old(duplicateCounter) + 1
      ensures Spare() && Members(recycle) <= Members(old(recycle)) + {insert}
      ensures top == old(top) && bottom == old(bottom)
    {
      NodesAllocated(t);
      actual.ref := actual.ref + insert.ref;
      actual.data := insert.data;
      TrashNode(insert, Leaf, Leaf);
      duplicateCounter := duplicateCounter + 1;
    }

    /** Inserts `insert` below `actual`; `stored` is the node that holds its data in the end. */
    method InsertIntoTree(actual: Node?, insert: Node, ghost t: Tree) returns (result: Node, stored: Node)
      requires actual == NodeOf(t) && Linked(t) && Distinct(t) && Search(t)
      requires insert !in Nodes(t) && insert.left == null && insert.right == null && insert.ref >= 1
      requires insert !in Nodes(tree) && insert !in recycle && Spare() && insert != top && insert != bottom
      modifies Nodes(t), `nodeCounter, `duplicateCounter, `recycle, `top, `bottom
      ensures Linked(Inserted(t, insert, insert.data, insert.ref))
      ensures result == NodeOf(Inserted(t, insert, insert.data, insert.ref))
      ensures stored == NodeOf(Find(Inserted(t, insert, insert.data, insert.ref), insert.data.key))
      ensures insert.data == old(insert.data) && insert.ref == old(insert.ref)
      ensures nodeCounter == old(nodeCounter) + (if insert.data.key in KeySet(t) then 0 else 1)
      ensures duplicateCounter == old(duplicateCounter) + (if insert.data.key in KeySet(t) then 1 else 0)
      ensures Spare() && Members(recycle) <= Members(old(recycle)) + {insert}
      ensures insert in recycle ==> insert.data.key in KeySet(t)
      ensures top == old(top) && bottom == old(bottom)
      decreases t
    {
      hide Nodes, Search, KeySet, NoRepeat, Members, Distinct;
      Parts(t);
      if actual == null {
        nodeCounter := nodeCounter + 1;
        return insert, insert;
      }
      result := actual;
      NodesAllocated(t);
      if actual.data.key == insert.data.key {
        Join(actual, insert, t);
        stored := actual;
      } else if actual.data.key < insert.data.key {
        InsertedNodes(t.right, insert, insert.data, insert.ref);
        ghost var u := Inserted(t.right, insert, insert.data, insert.ref);
        assert Inserted(t, insert, insert.data, insert.ref) == t.(right := u);
        var r, m := InsertIntoTree(actual.right, insert, t.right);
        actual.right := r;
        stored := m;
      } else {
        InsertedNodes(t.left, insert, insert.data, insert.ref);
        ghost var u := Inserted(t.left, insert, insert.data, insert.ref);
        assert Inserted(t, insert, insert.data, insert.ref) == t.(left := u);
        var l, m := InsertIntoTree(actual.left, insert, t.left);
        actual.left := l;
        stored := m;
      }
    }

    /** Updates the cached extremes after `tree` came from `t` by inserting node `n`. */
    method CacheExtremes(stored: Node, ghost t: Tree, ghost n: Node, ghost d: Ref, ghost c: int)
      requires tree == Inserted(t, n, d, c) && Search(t) && c >= 1 && Linked(tree)
      requires nodeCounter == Size(tree) && stored == NodeOf(Find(tree, d.key))
      requires top == NodeOf(Rightmost(t)) && bottom == NodeOf(Leftmost(t))
      modifies `top, `bottom
      ensures top == NodeOf(Rightmost(tree)) && bottom == NodeOf(Leftmost(tree))
    {
      InsertedSearch(t, n, d, c);
      BagSize(tree);
      if nodeCounter == 1 {
        SingleInsertion(t, n, d, c);
        top, bottom := stored, stored;
      } else {
        InsertedFind(t, n, d, c);
        StoredKeys(t, n, d, c);
        if top.data.key < stored.data.key {
          top := stored;
        } else if stored.data.key < bottom.data.key {
          bottom := stored;
        }
      }
    }

    method InsertNode(node: Node)
      requires Valid()
      requires node !in Nodes(tree) && node !in recycle
      requires node.left == null && node.right == null && node.ref >= 1
      modifies this, Nodes(tree)
      ensures Valid()
      ensures tree == Inserted(old(tree), node, old(node.data), old(node.ref))
      ensures Drift() == old(Drift()) + old(node.ref) - 1
      ensures Nodes(tree) <= old(Nodes(tree)) + {node}
      ensures Members(recycle) <= Members(old(recycle)) + {node}
    {
      hide Search, Distinct, Inserted, KeySet, Size, Dups, Find, Nodes, NoRepeat, Members, Linked;
      ghost var t, d, c := tree, node.data, node.ref;
      InsertedShape(t, node, d, c);
      NodesAllocated(t);
      var result, stored := InsertIntoTree(root, node, t);
      root := result;
      tree := Inserted(t, node, d, c);
      NodesAllocated(tree);
      CacheExtremes(stored, t, node, d, c);
    }

    method InsertData(data: Ref)
      requires Valid()
      modifies Footprint()
      ensures Valid()
      ensures Bag(tree) == old(Bag(tree)) + multiset{data.key}
      ensures forall x :: Kept(tree, x) == if x == data.key then Some(data) else old(Kept(tree, x))
      ensures RootKey(tree) == if old(tree).Leaf? then Some(data.key) else RootKey(old(tree))
      ensures Drift() == old(Drift())
      ensures fresh(Footprint() - old(Footprint()))
    {
      hide Search, Distinct, Inserted, KeySet, Rightmost, Leftmost, Size, Dups, Find, Bag, RootKey;
      NodesAllocated(tree);
      var node := MakeNode(data);
      InsertedOne(tree, node, data);
      InsertedRoot(tree, node, data, 1);
      InsertNode(node);
    }

    // -------------------------------------------------------------- removal

    /** Makes the link that led to `node` lead to the root of `s` instead. */
    method Relink(ghost key: int, node: Node, parent: Node?, candidate: Node?, ghost s: Tree)
      requires Shape()
      requires Find(tree, key).Fork? && node == NodeOf(Find(tree, key)) && parent == Parent(tree, key, null)
      requires candidate == NodeOf(s) && Linked(s) && Distinct(s) && Search(s)
      requires Nodes(s) <= Nodes(Find(tree, key)) - {node} && KeySet(s) <= KeySet(Find(tree, key))
      modifies `root, `tree, Nodes(tree) - Nodes(Find(tree, key))
      ensures tree == Graft(old(tree), key, s) && Shape()
      ensures Linked(old(Find(tree, key)))
      ensures Nodes(tree) <= old(Nodes(tree)) - {node}
    {
      hide Distinct, Search, KeySet, Size, Dups, Bag, Nodes;
      ghost var t := tree;
      NodesAllocated(t);
      ParentOutside(t, key, null);
      LinkedAt(t, key);
      GraftDistinct(t, key, s);
      GraftSearch(t, key, s);
      FindParts(t, key);
      forall n | n in Nodes(Graft(t, key, s)) ensures n in Nodes(t) && n != node {
        GraftNodes(t, key, s, n);
      }
      if parent == null {
        root := candidate;
      } else {
        LinkedParent(t, key, null);
        if parent.left == node {
          parent.left := candidate;
        } else {
          parent.right := candidate;
        }
        LinkedGraft(t, key, s);
      }
      tree := Graft(t, key, s);
    }

    /** Unlinks a node with at most one child. */
    method PopLink(ghost key: int, node: Node, parent: Node?)
      requires Valid()
      requires Find(tree, key).Fork? && !TwoChildren(Find(tree, key))
      requires node == NodeOf(Find(tree, key)) && parent == Parent(tree, key, null)
      modifies this, Nodes(tree)
      ensures Valid()
      ensures tree == Removed(old(tree), key)
      ensures Nodes(tree) <= old(Nodes(tree)) - {node}
      ensures node.left == null && node.right == null
      ensures node.data == old(Find(tree, key).data) && node.ref == old(Find(tree, key).count)
      ensures recycle == old(recycle)
      ensures duplicateCounter == old(duplicateCounter) - (node.ref - 1)
    {
      hide Search, Distinct, Graft, Uprooted, KeySet, Rightmost, Leftmost, Size, Dups, Find, Parent, Nodes, NoRepeat, Bag;
      ghost var t, s := tree, Find(tree, key);
      NodesAllocated(t);
      LinkedAt(t, key);
      UnlinkMeans(t, key);
      var candidate := if node.left == null then node.right else node.left;
      Relink(key, node, parent, candidate, Uprooted(s));
      nodeCounter := nodeCounter - 1;
      duplicateCounter := duplicateCounter - (node.ref - 1);
      Detach(node);
    }

    /** Clears the links of a node that left the tree and refreshes the cached extremes. */
    method Detach(node: Node)
      requires Shape() && node !in Nodes(tree)
      requires node != top ==> top == NodeOf(Rightmost(tree))
      requires node != bottom ==> bottom == NodeOf(Leftmost(tree))
      modifies node, `top, `bottom
      ensures Shape() && top == NodeOf(Rightmost(tree)) && bottom == NodeOf(Leftmost(tree))
      ensures node.left == null && node.right == null && node.data == old(node.data) && node.ref == old(node.ref)
    {
      NodesAllocated(tree);
      node.left, node.right := null, null;
      if node == top { RefreshTop(Leaf); }
      if node == bottom { RefreshBottom(Leaf); }
    }

    /** Gives the node at `key` new data and a new reference count. */
    method Refill(ghost key: int, node: Node, data: Ref, ref: int)
      requires Shape() && Find(tree, key).Fork? && node == NodeOf(Find(tree, key))
      requires Search(Graft(tree, key, Find(tree, key).(data := data, count := ref)))
      modifies node, `tree
      ensures Shape()
      ensures tree == Graft(old(tree), key, old(Find(tree, key)).(data := data, count := ref))
      ensures Nodes(tree) == old(Nodes(tree)) && Size(tree) == old(Size(tree))
      ensures NodeOf(Rightmost(tree)) == old(NodeOf(Rightmost(tree)))
      ensures NodeOf(Leftmost(tree)) == old(NodeOf(Leftmost(tree)))
    {
      ghost var t := tree;
      NodesAllocated(t);
      FindNodes(t, key);
      node.data, node.ref := data, ref;
      LinkedRefill(t, key);
      RefillMeans(t, key, data, ref);
      tree := Graft(t, key, Find(t, key).(data := data, count := ref));
    }

    /** What popping books as gone for the subtree at the popped key. */
    static ghost function Booked(s: Tree): int
      requires s.Fork?
    {
      if TwoChildren(s) then Rightmost(s.left).count else s.count
    }

    method PopFromTree(key: int) returns (result: Node?)
      requires Valid()
      modifies this, Nodes(tree)
      ensures Valid() && recycle == old(recycle)
      ensures tree == Removed(old(tree), key)
      ensures result == null <==> key !in KeySet(old(tree))
      ensures result == null ==> duplicateCounter == old(duplicateCounter)
      ensures result != null ==>
                && result in old(Nodes(tree)) && Nodes(tree) <= old(Nodes(tree)) - {result}
                && result.left == null && result.right == null
                && result.data == old(Find(tree, key).data) && result.ref == old(Find(tree, key).count)
                && duplicateCounter == old(duplicateCounter) - (Booked(old(Find(tree, key))) - 1)
      decreases TwoChildren(Find(tree, key)), 1
    {
      NodesAllocated(tree);
      FindBag(tree, key);
      var node, parent := SearchValue(key);
      if node == null { return null; }
      LinkedAt(tree, key);
      if node.left != null && node.right != null {
        result := PopReplace(key, node);
      } else {
        PopLink(key, node, parent);
        result := node;
      }
    }

    /** Pops a node with two children: its in-order predecessor leaves the tree in its stead,
        after the two have swapped what they hold. */
    method PopReplace(ghost key: int, node: Node) returns (result: Node)
      requires Valid() && TwoChildren(Find(tree, key)) && node == NodeOf(Find(tree, key))
      modifies this, Nodes(tree)
      ensures Valid() && recycle == old(recycle)
      ensures tree == Removed(old(tree), key)
      ensures result in old(Nodes(tree)) && Nodes(tree) <= old(Nodes(tree)) - {result}
      ensures result.left == null && result.right == null
      ensures result.data == old(Find(tree, key).data) && result.ref == old(Find(tree, key).count)
      ensures duplicateCounter == old(duplicateCounter) - (Booked(old(Find(tree, key))) - 1)
      decreases TwoChildren(Find(tree, key)), 0
    {
      hide Search, Distinct, Graft, Uprooted, KeySet, Rightmost, Leftmost, Size, Dups, Find, Parent, Nodes, NoRepeat, Linked;
      ghost var s := Find(tree, key);
      NodesAllocated(tree);
      LinkedAt(tree, key);
      ReplaceMeans(tree, key);
      var candidate := GetRightestValue(node.left, s.left);
      CandidateMeans(tree, key);
      result := PopFromTree(candidate.data.key);
      LinkedAt(tree, key);
      var ref, data := node.ref, node.data;
      Refill(key, node, result.data, result.ref);
      result.ref, result.data := ref, data;
      Detach(result);
    }

    /** Drops one reference to `key`. */
    method DerefFromTree(key: int)
      requires Valid()
      modifies this, Nodes(tree)
      ensures Valid()
      ensures tree == Dereffed(old(tree), key)
      ensures Drift() == old(Drift()) + Loss(old(tree), key)
      ensures Nodes(tree) <= old(Nodes(tree))
      ensures Members(recycle) <= old(Nodes(tree) + Members(recycle))
    {
      NodesAllocated(tree);
      FindBag(tree, key);
      var node, parent := SearchValue(key);
      if node == null { return; }
      LinkedAt(tree, key);
      if node.ref > 1 {
        DerefSurvive(key, node);
      } else if node.left != null && node.right != null {
        DerefReplace(key, node);
      } else {
        DerefUnlink(key, node, parent);
      }
    }

    method DerefSurvive(ghost key: int, node: Node)
      requires Valid()
      requires Find(tree, key).Fork? && Find(tree, key).count > 1 && node == NodeOf(Find(tree, key))
      modifies this, node
      ensures Valid()
      ensures tree == Dereffed(old(tree), key)
      ensures Drift() == old(Drift())
      ensures Nodes(tree) == old(Nodes(tree)) && recycle == old(recycle)
    {
      SurvivorShape(tree, key);
      LinkedAt(tree, key);
      Refill(key, node, node.data, node.ref - 1);
      duplicateCounter := duplicateCounter - 1;
    }

    method DerefUnlink(ghost key: int, node: Node, parent: Node?)
      requires Valid()
      requires Find(tree, key).Fork? && !TwoChildren(Find(tree, key)) && Find(tree, key).count == 1
      requires node == NodeOf(Find(tree, key)) && parent == Parent(tree, key, null)
      modifies this, Nodes(tree)
      ensures Valid()
      ensures tree == Removed(old(tree), key)
      ensures Drift() == old(Drift())
      ensures Nodes(tree) <= old(Nodes(tree))
      ensures Members(recycle) <= old(Nodes(tree) + Members(recycle))
    {
      hide Search, Distinct, Graft, KeySet, Size, Dups, Find, Parent, Nodes, NoRepeat;
      ghost var t, s := tree, Find(tree, key);
      NodesAllocated(t);
      LinkedAt(t, key);
      UnlinkMeans(t, key);
      var candidate := if node.left == null then node.right else node.left;
      Relink(key, node, parent, candidate, Uprooted(s));
      TrashNode(node, s.left, s.right);
      nodeCounter := nodeCounter - 1;
    }

    /** The node takes over its predecessor's entry; the predecessor's node is recycled. */
    method DerefReplace(ghost key: int, node: Node)
      requires Valid()
      requires TwoChildren(Find(tree, key)) && Find(tree, key).count == 1 && node == NodeOf(Find(tree, key))
      modifies this, Nodes(tree)
      ensures Valid()
      ensures tree == Removed(old(tree), key)
      ensures Drift() == old(Drift()) + Loss(old(tree), key)
      ensures Nodes(tree) <= old(Nodes(tree))
      ensures Members(recycle) <= old(Nodes(tree) + Members(recycle))
    {
      hide Search, Distinct, Graft, Uprooted, KeySet, Leftmost, Size, Dups, Find, Parent, Nodes, NoRepeat;
      ghost var s := Find(tree, key);
      NodesAllocated(tree);
      LinkedAt(tree, key);
      ReplaceMeans(tree, key);
      var candidate := GetRightestValue(node.left, s.left);
      CandidateMeans(tree, key);
      var popped := PopFromTree(candidate.data.key);
      NodesAllocated(tree);
      LinkedAt(tree, key);
      Refill(key, node, popped.data, popped.ref);
      TrashNode(popped, Leaf, Leaf);
    }

    // -------------------------------------------------------------- interface

    function GetTopData(): (r: Option<Ref>)
      requires Valid()
      reads this, Nodes(tree)
      ensures r == TopOf(tree)
    {
      ExtremesLinked();
      if top == null then None else Some(top.data)
    }

    function GetBottomData(): (r: Option<Ref>)
      requires Valid()
      reads this, Nodes(tree)
      ensures r == BottomOf(tree)
    {
      ExtremesLinked();
      if bottom == null then None else Some(bottom.data)
    }

    lemma ExtremesLinked()
      requires Valid()
      ensures top != null ==> top in Nodes(tree) && tree.Fork? && top.data == Rightmost(tree).data
      ensures bottom != null ==> bottom in Nodes(tree) && tree.Fork? && bottom.data == Leftmost(tree).data
    {
      if tree.Fork? {
        RightmostMax(tree);
        LeftmostMin(tree);
        LinkedAt(tree, Rightmost(tree).data.key);
        LinkedAt(tree, Leftmost(tree).data.key);
      }
    }

    method HasValue(key: int) returns (found: bool)
      requires Valid()
      ensures found <==> key in Bag(tree)
    {
      var node, _ := SearchValue(key);
      FindBag(tree, key);
      BagDomain(tree);
      found := node != null;
    }

    function GetNodenum(): (n: int)
      requires Valid()
      reads this, Nodes(tree)
      ensures n == |KeySet(tree)|
    {
      SizeIsKeyCount(tree);
      nodeCounter
    }

    function GetRefnum(): (n: int)
      requires Valid()
      reads this, Nodes(tree)
      ensures n == |Bag(tree)| - Drift()
    {
      BagSize(tree);
      nodeCounter + duplicateCounter
    }

    /** Drops one reference to the key; which counters that leaves right is `Loss`. */
    method DeleteValue(key: int)
      requires Valid()
      modifies Footprint()
      ensures Valid()
      ensures Bag(tree) == old(Bag(tree)) - multiset{key}
      ensures forall x :: Kept(tree, x) == if x == key && old(Bag(tree))[key] <= 1 then None else old(Kept(tree, x))
      ensures Drift() == old(Drift()) + Loss(old(tree), key)
      ensures Footprint() <= old(Footprint())
    {
      DereffedMeans(tree, key);
      DerefFromTree(key);
    }

    /** Takes one reference to the least key; the counters stay right. */
    method PopBottomData() returns (r: Option<Ref>)
      requires Valid()
      modifies Footprint()
      ensures Valid()
      ensures r == BottomOf(old(tree))
      ensures Bag(tree) == if r.None? then old(Bag(tree)) else old(Bag(tree)) - multiset{r.value.key}
      ensures Drift() == old(Drift())
      ensures Footprint() <= old(Footprint())
    {
      NodesAllocated(tree);
      r := GetBottomData();
      if r.None? { return; }
      LeftmostMin(tree);
      DeleteValue(r.value.key);
    }

    method PopTopData() returns (r: Option<Ref>)
      requires Valid()
      modifies Footprint()
      ensures Valid()
      ensures r == TopOf(old(tree))
      ensures Bag(tree) == if r.None? then old(Bag(tree)) else old(Bag(tree)) - multiset{r.value.key}
      ensures Drift() == old(Drift())
      ensures Footprint() <= old(Footprint())
    {
      NodesAllocated(tree);
      r := GetTopData();
      if r.None? { return; }
      RightmostMax(tree);
      DeleteValue(r.value.key);
    }

    /** Takes the whole node of `key` out, with all its references.  The counters stay right
        exactly when the predecessor that refills the node has as many references. */
    method PopNode(key: int) returns (result: Node?)
      requires Valid()
      modifies Footprint()
      ensures Valid()
      ensures result == null <==> key !in old(Bag(tree))
      ensures Bag(tree) == old(Bag(tree))[key := 0]
      ensures result != null ==>
                && old(Find(tree, key)).Fork?
                && result.data == old(Find(tree, key)).data && result.ref == old(Bag(tree))[key]
                && result.left == null && result.right == null && result !in Nodes(tree) && result !in recycle
                && Drift() == old(Drift()) + Booked(old(Find(tree, key))) - result.ref
      ensures Footprint() <= old(Footprint())
    {
      FindBag(tree, key);
      BagDomain(tree);
      if Find(tree, key).Fork? {
        RemovedMeans(tree, key);
      }
      result := PopFromTree(key);
    }
  }

  /** The root holds `key` once and its left child the next smaller key twice. */
  lemma {:induction false} RootLoses(t: Tree, key: int, low: int, high: int)
    requires Search(t) && RootKey(t) == Some(key) && low < key < high
    requires forall x :: Bag(t)[x] > 0 ==> x == low || key <= x
    requires Bag(t)[low] == 2 && Bag(t)[key] == 1 && high in Bag(t)
    ensures Loss(t, key) == 1
  {
    BagDomain(t);
    FindBag(t, key);
    assert low in KeySet(t.left) && high in KeySet(t.right);
    PredecessorOut(t.left);
    BagDomain(t.left);
    BagDomain(t.right);
    assert Bag(t)[low] == Bag(t.left)[low];
  }

  /** A run that leaves the counters wrong: insert 2, 1, 1 and 3, and delete the 2, which
      its predecessor 1 replaces. Three references are left, and two are counted. */
  method DriftRun() returns (t: BinTree)
    ensures t.Valid() && Bag(t.tree) == multiset{1, 1, 3}
    ensures t.Drift() == 1 && t.GetRefnum() == 2
  {
    hide BinTree.Valid, BinTree.Footprint, Search, Bag, Loss, Kept, Nodes, Linked, RootKey;
    EmptyBag();
    t := new BinTree();
    t.InsertData(Ref(0, 2));
    t.InsertData(Ref(1, 1));
    t.InsertData(Ref(2, 1));
    t.InsertData(Ref(3, 3));
    t.IsSearchTree();
    assert Bag(t.tree) == multiset{1, 1, 2, 3};
    RootLoses(t.tree, 2, 1, 3);
    t.DeleteValue(2);
  }
}
