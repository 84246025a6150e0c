/**
 The nodes of the reference-counted binary search tree, and the value-level picture of
 a linked tree that the specification of `BinTrees.BinTree` is written in.

 A `Tree` records, for every node, its identity, the data pointer it holds and its
 reference count.  `Linked` says that the heap looks like that picture.  The functions
 below describe what the tree operations do to the picture; `Bag` (key multiplicities),
 `Kept` (the data pointer kept for a key) and `Keys` (the in-order key list) say
 what a picture means.
 */
module TreeShape {
  import opened Options

  /** A data pointer together with the int32 stored where it points. */
  datatype Ref = Ref(addr: nat, key: int)

  class Node {
    var data: Ref
    var ref: int
    var left: Node?
    var right: Node?

    constructor (data: Ref)
      ensures this.data == data && ref == 1 && left == null && right == null
    {
      this.data, ref, left, right := data, 1, null, null;
    }
  }

  datatype Tree = Leaf | Fork(left: Tree, node: Node, data: Ref, count: int, right: Tree)

  ghost function Nodes(t: Tree): set<Node> {
    match t
    case Leaf => {}
    case Fork(l, n, _, _, r) => Nodes(l) + {n} + Nodes(r)
  }

  ghost function NodeOf(t: Tree): Node? {
    if t.Leaf? then null else t.node
  }

  /** The heap below `NodeOf(t)` looks like `t`. */
  ghost predicate Linked(t: Tree)
    reads Nodes(t)
  {
    match t
    case Leaf => true
    case Fork(l, n, d, c, r) =>
      && n.data == d && n.ref == c && n.left == NodeOf(l) && n.right == NodeOf(r)
      && Linked(l) && Linked(r)
  }

  /** No node occurs twice. */
  ghost predicate Distinct(t: Tree) {
    match t
    case Leaf => true
    case Fork(l, n, _, _, r) =>
      Distinct(l) && Distinct(r) && n !in Nodes(l) && n !in Nodes(r) && Nodes(l) !! Nodes(r)
  }

  // ---------------------------------------------------------------- meaning

  ghost function KeySet(t: Tree): set<int> {
    match t
    case Leaf => {}
    case Fork(l, _, d, _, r) => KeySet(l) + {d.key} + KeySet(r)
  }

  /** Search order, with unique keys and positive reference counts. */
  ghost predicate Search(t: Tree) {
    match t
    case Leaf => true
    case Fork(l, _, d, c, r) =>
      && Search(l) && Search(r) && c >= 1
      && (forall x :: x in KeySet(l) ==> x < d.key)
      && (forall x :: x in KeySet(r) ==> d.key < x)
  }

  ghost function Size(t: Tree): nat {
    match t
    case Leaf => 0
    case Fork(l, _, _, _, r) => Size(l) + 1 + Size(r)
  }

  /** The references above the first, over all nodes. */
  ghost function Dups(t: Tree): int {
    match t
    case Leaf => 0
    case Fork(l, _, _, c, r) => Dups(l) + (c - 1) + Dups(r)
  }

  ghost function Times(key: int, count: int): (s: seq<int>)
    ensures |s| == (if count > 0 then count else 0)
    ensures forall i :: 0 <= i < |s| ==> s[i] == key
  {
    if count <= 0 then [] else [key] + Times(key, count - 1)
  }

  /** The keys in order, each as often as it is referenced. */
  ghost function Keys(t: Tree): seq<int> {
    match t
    case Leaf => []
    case Fork(l, _, d, c, r) => Keys(l) + Times(d.key, c) + Keys(r)
  }

  /** How often each key is referenced. */
  ghost function Bag(t: Tree): multiset<int> {
    match t
    case Leaf => multiset{}
    case Fork(l, _, d, c, r) => Bag(l) + multiset{}[d.key := if c < 0 then 0 else c] + Bag(r)
  }

  // ---------------------------------------------------------------- navigation

  /** The subtree rooted at the node with the given key. */
  ghost function Find(t: Tree, key: int): Tree {
    match t
    case Leaf => Leaf
    case Fork(l, _, d, _, r) => if key == d.key then t else if key < d.key then Find(l, key) else Find(r, key)
  }

  /** The data pointer the tree keeps for `key`. */
  ghost function Kept(t: Tree, key: int): Option<Ref> {
    if Find(t, key).Leaf? then None else Some(Find(t, key).data)
  }

  /** The last node passed on the search path to `key`. */
  ghost function Parent(t: Tree, key: int, above: Node?): Node? {
    match t
    case Leaf => above
    case Fork(l, n, d, _, r) =>
      if key == d.key then above else if key < d.key then Parent(l, key, n) else Parent(r, key, n)
  }

  /** The tree with the subtree at `key` replaced by `s`. */
  ghost function Graft(t: Tree, key: int, s: Tree): Tree {
    match t
    case Leaf => Leaf
    case Fork(l, n, d, c, r) =>
      if key == d.key then s
      else if key < d.key then Fork(Graft(l, key, s), n, d, c, r)
      else Fork(l, n, d, c, Graft(r, key, s))
  }

  ghost function Rightmost(t: Tree): (m: Tree)
    ensures t.Fork? ==> m.Fork? && m.right.Leaf?
  {
    if t.Leaf? || t.right.Leaf? then t else Rightmost(t.right)
  }

  ghost function Leftmost(t: Tree): (m: Tree)
    ensures t.Fork? ==> m.Fork? && m.left.Leaf?
  {
    if t.Leaf? || t.left.Leaf? then t else Leftmost(t.left)
  }

  function RootKey(t: Tree): Option<int> {
    match t
    case Leaf => None
    case Fork(_, _, d, _, _) => Some(d.key)
  }

  /** The data of the greatest and of the least key. */
  ghost function TopOf(t: Tree): Option<Ref> {
    if t.Leaf? then None else Some(Rightmost(t).data)
  }

  ghost function BottomOf(t: Tree): Option<Ref> {
    if t.Leaf? then None else Some(Leftmost(t).data)
  }

  // ---------------------------------------------------------------- updates

  /** Inserting node `n`, holding `d` with `c` references: a node with an equal key takes
      over the new data pointer and the references. */
  ghost function Inserted(t: Tree, n: Node, d: Ref, c: int): Tree {
    match t
    case Leaf => Fork(Leaf, n, d, c, Leaf)
    case Fork(l, m, e, k, r) =>
      if e.key == d.key then Fork(l, m, d, k + c, r)
      else if e.key < d.key then Fork(l, m, e, k, Inserted(r, n, d, c))
      else Fork(Inserted(l, n, d, c), m, e, k, r)
  }

  /** What is left of a subtree when its root entry goes: the only child, or the root node
      refilled from its in-order predecessor. */
  ghost function Uprooted(s: Tree): Tree
    requires s.Fork?
  {
    if s.left.Leaf? then s.right
    else if s.right.Leaf? then s.left
    else
      var p := Rightmost(s.left);
      Fork(Graft(s.left, p.data.key, p.left), s.node, p.data, p.count, s.right)
  }

  /** The tree without the entry for `key`. */
  ghost function Removed(t: Tree, key: int): Tree {
    var s := Find(t, key);
    if s.Leaf? then t else Graft(t, key, Uprooted(s))
  }

  /** The tree with one reference to `key` dropped. */
  ghost function Dereffed(t: Tree, key: int): Tree {
    var s := Find(t, key);
    if s.Leaf? then t
    else if s.count > 1 then Graft(t, key, s.(count := s.count - 1))
    else Graft(t, key, Uprooted(s))
  }

  /** The root entry has to be refilled from its predecessor. */
  ghost predicate TwoChildren(s: Tree) {
    s.Fork? && s.left.Fork? && s.right.Fork?
  }

  // ---------------------------------------------------------------- lemmas: what the pictures mean

  lemma BagDomain(t: Tree)
    requires Search(t)
    ensures forall x :: x in Bag(t) <==> x in KeySet(t)
  {
    if t.Fork? {
      BagDomain(t.left);
      BagDomain(t.right);
    }
  }

  /** A key is counted on its side of the root. */
  lemma BagAt(t: Tree, x: int)
    requires Search(t) && t.Fork?
    ensures Bag(t)[x] == if x == t.data.key then t.count else Bag(if x < t.data.key then t.left else t.right)[x]
  {
    BagDomain(t.left);
    BagDomain(t.right);
    assert x in Bag(t.left) <==> Bag(t.left)[x] > 0;
    assert x in Bag(t.right) <==> Bag(t.right)[x] > 0;
  }

  lemma BagSize(t: Tree)
    requires Search(t)
    ensures |Bag(t)| == Size(t) + Dups(t) == |Keys(t)|
    ensures Dups(t) >= 0
    ensures Size(t) == 0 <==> t.Leaf?
  {
    if t.Fork? {
      BagSize(t.left);
      BagSize(t.right);
      SingleBag(t.data.key, t.count);
    }
  }

  lemma {:induction false} SizeIsKeyCount(t: Tree)
    requires Search(t)
    ensures |KeySet(t)| == Size(t)
  {
    if t.Fork? {
      SizeIsKeyCount(t.left);
      SizeIsKeyCount(t.right);
      DisjointUnion(KeySet(t.left), KeySet(t.right), t.data.key);
    }
  }

  lemma DisjointUnion(a: set<int>, b: set<int>, x: int)
    requires (forall y :: y in a ==> y < x) && (forall y :: y in b ==> x < y)
    ensures |a + {x} + b| == |a| + 1 + |b|
  {
    assert |a + {x}| == |a| + 1;
    assert forall y :: y in a + {x} ==> y !in b;
    assert (a + {x}) * b == {};
  }

  lemma {:induction false} SingleBag(key: int, count: int)
    requires count >= 0
    ensures |multiset{}[key := count]| == count
    ensures multiset(Times(key, count)) == multiset{}[key := count]
    decreases count
  {
    var e: multiset<int> := multiset{};
    if count > 0 {
      SingleBag(key, count - 1);
      assert e[key := count] == multiset{key} + e[key := count - 1];
      assert Times(key, count) == [key] + Times(key, count - 1);
    } else {
      assert e[key := count] == e;
    }
  }

  lemma KeysBag(t: Tree)
    requires Search(t)
    ensures multiset(Keys(t)) == Bag(t)
  {
    if t.Fork? {
      KeysBag(t.left);
      KeysBag(t.right);
      SingleBag(t.data.key, t.count);
    }
  }

  ghost predicate Ascending(s: seq<int>) {
    forall i, j :: 0 <= i < j < |s| ==> s[i] <= s[j]
  }

  lemma KeysAscending(t: Tree)
    requires Search(t)
    ensures Ascending(Keys(t))
    ensures forall i :: 0 <= i < |Keys(t)| ==> Keys(t)[i] in KeySet(t)
  {
    if t.Fork? {
      KeysAscending(t.left);
      KeysAscending(t.right);
    }
  }

  /** The count kept at the node for `key` is the multiplicity of `key`. */
  lemma {:induction false} FindBag(t: Tree, key: int)
    requires Search(t)
    ensures Find(t, key).Leaf? <==> key !in KeySet(t)
    ensures Find(t, key).Fork? ==>
              && Find(t, key).data.key == key
              && Find(t, key).count == Bag(t)[key]
              && Search(Find(t, key))
              && KeySet(Find(t, key)) <= KeySet(t)
              && Nodes(Find(t, key)) <= Nodes(t)
  {
    hide Bag;
    if t.Fork? {
      BagAt(t, key);
      if key < t.data.key {
        FindBag(t.left, key);
      } else if t.data.key < key {
        FindBag(t.right, key);
      }
    }
  }

  // ---------------------------------------------------------------- lemmas: insertion

  lemma {:induction false} InsertedSearch(t: Tree, n: Node, d: Ref, c: int)
    requires Search(t) && c >= 1
    ensures var u := Inserted(t, n, d, c);
            && Search(u)
            && KeySet(u) == KeySet(t) + {d.key}
            && Size(u) == Size(t) + (if d.key in KeySet(t) then 0 else 1)
            && Dups(u) == Dups(t) + (if d.key in KeySet(t) then c else c - 1)
  {
    if t.Fork? {
      if d.key < t.data.key {
        InsertedSearch(t.left, n, d, c);
      } else if t.data.key < d.key {
        InsertedSearch(t.right, n, d, c);
      }
    }
  }

  lemma {:induction false} InsertedBag(t: Tree, n: Node, d: Ref, c: int)
    requires Search(t) && c >= 1
    ensures Bag(Inserted(t, n, d, c)) == Bag(t)[d.key := Bag(t)[d.key] + c]
  {
    hide Bag, Search, Inserted;
    forall x ensures Bag(Inserted(t, n, d, c))[x] == Bag(t)[d.key := Bag(t)[d.key] + c][x] {
      InsertedTimes(t, n, d, c, x);
    }
  }

  lemma {:induction false} InsertedTimes(t: Tree, n: Node, d: Ref, c: int, x: int)
    requires Search(t) && c >= 1
    ensures Bag(Inserted(t, n, d, c))[x] == Bag(t)[x] + if x == d.key then c else 0
  {
    if t.Fork? {
      hide Bag;
      InsertedSearch(t, n, d, c);
      BagAt(t, x);
      BagAt(Inserted(t, n, d, c), x);
      if d.key < t.data.key {
        InsertedTimes(t.left, n, d, c, x);
      } else if t.data.key < d.key {
        InsertedTimes(t.right, n, d, c, x);
      }
    }
  }

  lemma InsertedKept(t: Tree, n: Node, d: Ref, c: int, key: int)
    ensures Kept(Inserted(t, n, d, c), key) == if key == d.key then Some(d) else Kept(t, key)
  {
  }

  /** The inserted key's node: the new one, or the one that had the key before. */
  lemma InsertedFind(t: Tree, n: Node, d: Ref, c: int)
    ensures Find(Inserted(t, n, d, c), d.key).Fork?
    ensures NodeOf(Find(Inserted(t, n, d, c), d.key)) == if Find(t, d.key).Fork? then Find(t, d.key).node else n
    ensures Find(Inserted(t, n, d, c), d.key).data == d
  {
  }

  /** Keys found before are found after, at the same node. */
  lemma InsertedAt(t: Tree, n: Node, d: Ref, c: int, key: int)
    requires Find(t, key).Fork?
    ensures Find(Inserted(t, n, d, c), key).Fork?
    ensures NodeOf(Find(Inserted(t, n, d, c), key)) == NodeOf(Find(t, key))
  {
  }

  /** What the heap holds at a node that is in the picture. */
  lemma LinkedAt(t: Tree, key: int)
    requires Linked(t) && Find(t, key).Fork?
    ensures var s := Find(t, key);
            && Linked(s)
            && s.node.data == s.data && s.node.ref == s.count
            && s.data.key == key
            && s.node in Nodes(t)
  {
  }

  lemma {:induction false} SingleInsertion(t: Tree, n: Node, d: Ref, c: int)
    requires Search(t) && c >= 1 && Size(Inserted(t, n, d, c)) == 1
    ensures var u := Inserted(t, n, d, c);
            NodeOf(Find(u, d.key)) == NodeOf(Rightmost(u)) == NodeOf(Leftmost(u))
  {
    var u := Inserted(t, n, d, c);
    InsertedSearch(t, n, d, c);
    InsertedFind(t, n, d, c);
    BagSize(u.left);
    BagSize(u.right);
  }

  /** After an insertion the old extreme nodes still hold their keys. */
  lemma {:induction false} StoredKeys(t: Tree, n: Node, d: Ref, c: int)
    requires Search(t) && c >= 1 && Size(Inserted(t, n, d, c)) > 1
    requires Linked(Inserted(t, n, d, c))
    ensures var u := Inserted(t, n, d, c);
            && Find(u, d.key).Fork? && Find(u, d.key).node.data.key == d.key
            && t.Fork?
            && Rightmost(t).node.data.key == Rightmost(t).data.key
            && Leftmost(t).node.data.key == Leftmost(t).data.key
            && NodeOf(Rightmost(u)) == (if Rightmost(t).data.key < d.key then NodeOf(Find(u, d.key)) else NodeOf(Rightmost(t)))
            && NodeOf(Leftmost(u)) == (if d.key < Leftmost(t).data.key then NodeOf(Find(u, d.key)) else NodeOf(Leftmost(t)))
  {
    var u := Inserted(t, n, d, c);
    InsertedFind(t, n, d, c);
    InsertedExtremes(t, n, d, c);
    LinkedAt(u, d.key);
    RightmostMax(t);
    LeftmostMin(t);
    FindBag(t, d.key);
    InsertedAt(t, n, d, c, Rightmost(t).data.key);
    InsertedAt(t, n, d, c, Leftmost(t).data.key);
    LinkedAt(u, Rightmost(t).data.key);
    LinkedAt(u, Leftmost(t).data.key);
  }

  lemma {:induction false} InsertedOne(t: Tree, n: Node, d: Ref)
    requires Search(t)
    ensures Bag(Inserted(t, n, d, 1)) == Bag(t) + multiset{d.key}
    ensures forall x :: Kept(Inserted(t, n, d, 1), x) == if x == d.key then Some(d) else Kept(t, x)
  {
    InsertedBag(t, n, d, 1);
    forall x ensures Kept(Inserted(t, n, d, 1), x) == if x == d.key then Some(d) else Kept(t, x) {
      InsertedKept(t, n, d, 1, x);
    }
  }

  lemma InsertedNodes(t: Tree, n: Node, d: Ref, c: int)
    requires Search(t) && Distinct(t) && n !in Nodes(t)
    ensures var u := Inserted(t, n, d, c);
            && Distinct(u)
            && Nodes(u) == if d.key in KeySet(t) then Nodes(t) else Nodes(t) + {n}
  {
    if t.Fork? {
      InsertedNodes(t.left, n, d, c);
      InsertedNodes(t.right, n, d, c);
    }
  }

  lemma EmptyBag()
    ensures Bag(Leaf) == multiset{}
  {
  }

  lemma InsertedRoot(t: Tree, n: Node, d: Ref, c: int)
    ensures RootKey(Inserted(t, n, d, c)) == if t.Leaf? then Some(d.key) else RootKey(t)
  {
  }

  lemma {:induction false} InsertedShape(t: Tree, n: Node, d: Ref, c: int)
    requires Search(t) && Distinct(t) && n !in Nodes(t) && c >= 1
    ensures var u := Inserted(t, n, d, c);
            && Search(u) && Distinct(u)
            && Nodes(u) == (if d.key in KeySet(t) then Nodes(t) else Nodes(t) + {n})
            && Size(u) == Size(t) + (if d.key in KeySet(t) then 0 else 1)
            && Dups(u) == Dups(t) + (if d.key in KeySet(t) then c else c - 1)
    ensures n != NodeOf(Rightmost(t)) && n != NodeOf(Leftmost(t))
  {
    InsertedSearch(t, n, d, c);
    InsertedNodes(t, n, d, c);
    if t.Fork? {
      RightmostMax(t);
      LeftmostMin(t);
    }
  }

  // ---------------------------------------------------------------- lemmas: replacing a subtree

  /** The keys below `key`'s subtree are on its side of every ancestor. */
  lemma {:induction false} FindSide(t: Tree, key: int, x: int)
    requires Search(t) && x in KeySet(Find(t, key))
    ensures x in KeySet(t)
  {
    if key < t.data.key {
      FindSide(t.left, key, x);
    } else if t.data.key < key {
      FindSide(t.right, key, x);
    }
  }

  lemma {:induction false} GraftKeys(t: Tree, key: int, s: Tree, x: int)
    requires Search(t) && KeySet(s) <= KeySet(Find(t, key))
    ensures x in KeySet(Graft(t, key, s)) <==> x in KeySet(s) || (x in KeySet(t) && x !in KeySet(Find(t, key)))
  {
    if t.Fork? {
      if key < t.data.key {
        GraftKeys(t.left, key, s, x);
        if x in KeySet(Find(t.left, key)) {
          FindSide(t.left, key, x);
        }
      } else if t.data.key < key {
        GraftKeys(t.right, key, s, x);
        if x in KeySet(Find(t.right, key)) {
          FindSide(t.right, key, x);
        }
      }
    }
  }

  lemma {:induction false} GraftSearch(t: Tree, key: int, s: Tree)
    requires Search(t) && Search(s) && KeySet(s) <= KeySet(Find(t, key))
    ensures Search(Graft(t, key, s))
  {
    if t.Fork? {
      if key < t.data.key {
        GraftSearch(t.left, key, s);
        forall x | x in KeySet(Graft(t.left, key, s)) ensures x < t.data.key {
          GraftKeys(t.left, key, s, x);
          if x in KeySet(s) { FindSide(t.left, key, x); }
        }
      } else if t.data.key < key {
        GraftSearch(t.right, key, s);
        forall x | x in KeySet(Graft(t.right, key, s)) ensures t.data.key < x {
          GraftKeys(t.right, key, s, x);
          if x in KeySet(s) { FindSide(t.right, key, x); }
        }
      }
    }
  }

  lemma GraftSize(t: Tree, key: int, s: Tree)
    requires Find(t, key).Fork?
    ensures Size(Graft(t, key, s)) == Size(t) - Size(Find(t, key)) + Size(s)
    ensures Dups(Graft(t, key, s)) == Dups(t) - Dups(Find(t, key)) + Dups(s)
  {
  }

  lemma {:induction false} GraftBag(t: Tree, key: int, s: Tree, x: int)
    requires Search(t) && Search(s) && KeySet(s) <= KeySet(Find(t, key))
    ensures Bag(Graft(t, key, s))[x] == if x in KeySet(Find(t, key)) then Bag(s)[x] else Bag(t)[x]
  {
    hide Bag;
    NotInBag(s, x);
    if t.Fork? {
      GraftSearch(t, key, s);
      BagAt(t, x);
      NotInBag(t, x);
      if key < t.data.key {
        BagAt(Graft(t, key, s), x);
        GraftBag(t.left, key, s, x);
        if x in KeySet(Find(t.left, key)) { FindSide(t.left, key, x); }
      } else if t.data.key < key {
        BagAt(Graft(t, key, s), x);
        GraftBag(t.right, key, s, x);
        if x in KeySet(Find(t.right, key)) { FindSide(t.right, key, x); }
      }
    }
  }

  lemma NotInBag(t: Tree, x: int)
    requires Search(t)
    ensures x !in KeySet(t) ==> Bag(t)[x] == 0
  {
    BagDomain(t);
  }

  lemma {:induction false} GraftKept(t: Tree, key: int, s: Tree, x: int)
    requires Search(t) && Search(s) && KeySet(s) <= KeySet(Find(t, key))
    ensures Kept(Graft(t, key, s), x) == if x in KeySet(Find(t, key)) then Kept(s, x) else Kept(t, x)
    ensures x in KeySet(Find(t, key)) ==> Kept(t, x) == Kept(Find(t, key), x)
  {
    if t.Fork? {
      if key < t.data.key {
        GraftKept(t.left, key, s, x);
        if x in KeySet(Find(t.left, key)) { FindSide(t.left, key, x); }
      } else if t.data.key < key {
        GraftKept(t.right, key, s, x);
        if x in KeySet(Find(t.right, key)) { FindSide(t.right, key, x); }
      } else {
        FindBag(s, x);
        FindBag(t, x);
      }
    }
  }

  lemma FindNodes(t: Tree, key: int)
    ensures Nodes(Find(t, key)) <= Nodes(t)
    ensures Distinct(t) ==> Distinct(Find(t, key))
  {
  }

  lemma {:induction false} GraftNodes(t: Tree, key: int, s: Tree, x: Node)
    requires Distinct(t) && Nodes(s) <= Nodes(Find(t, key))
    ensures x in Nodes(Graft(t, key, s)) <==> x in Nodes(s) || (x in Nodes(t) && x !in Nodes(Find(t, key)))
  {
    if t.Fork? {
      if key < t.data.key {
        FindNodes(t.left, key);
        GraftNodes(t.left, key, s, x);
      } else if t.data.key < key {
        FindNodes(t.right, key);
        GraftNodes(t.right, key, s, x);
      }
    }
  }

  lemma {:induction false} GraftDistinct(t: Tree, key: int, s: Tree)
    requires Distinct(t) && Distinct(s) && Nodes(s) <= Nodes(Find(t, key))
    ensures Distinct(Graft(t, key, s))
    ensures Nodes(Graft(t, key, s)) <= Nodes(t)
  {
    if t.Fork? {
      FindNodes(t, key);
      if key < t.data.key {
        GraftDistinct(t.left, key, s);
      } else if t.data.key < key {
        GraftDistinct(t.right, key, s);
      }
    }
  }

  // ---------------------------------------------------------------- lemmas: extreme nodes

  lemma {:induction false} RightmostMax(t: Tree)
    requires Search(t) && t.Fork?
    ensures var m := Rightmost(t);
            && m.data.key in KeySet(t)
            && (forall x :: x in KeySet(t) ==> x <= m.data.key)
            && Find(t, m.data.key) == m
            && m.node in Nodes(t)
            && (t.right.Fork? ==> m == Rightmost(t.right))
  {
    if t.right.Fork? {
      RightmostMax(t.right);
    }
  }

  lemma {:induction false} LeftmostMin(t: Tree)
    requires Search(t) && t.Fork?
    ensures var m := Leftmost(t);
            && m.data.key in KeySet(t)
            && (forall x :: x in KeySet(t) ==> m.data.key <= x)
            && Find(t, m.data.key) == m
            && m.node in Nodes(t)
            && (t.left.Fork? ==> m == Leftmost(t.left))
  {
    if t.left.Fork? {
      LeftmostMin(t.left);
    }
  }

  lemma InsertedExtremes(t: Tree, n: Node, d: Ref, c: int)
    requires Search(t)
    ensures NodeOf(Rightmost(Inserted(t, n, d, c))) ==
            if t.Leaf? || Rightmost(t).data.key < d.key then n else NodeOf(Rightmost(t))
    ensures NodeOf(Leftmost(Inserted(t, n, d, c))) ==
            if t.Leaf? || d.key < Leftmost(t).data.key then n else NodeOf(Leftmost(t))
  {
    if t.Fork? {
      RightmostMax(t);
      LeftmostMin(t);
      InsertedExtremes(t.left, n, d, c);
      InsertedExtremes(t.right, n, d, c);
    }
  }

  /** Replacing a subtree leaves the maximum node alone when the new subtree has the same
      maximum node, or when the old one had its maximum at its root and was not the
      maximum of the whole tree. */
  lemma {:induction false} GraftKeepsRightmost(t: Tree, key: int, s: Tree)
    requires Distinct(t) && Find(t, key).Fork?
    requires (s.Fork? && NodeOf(Rightmost(s)) == NodeOf(Rightmost(Find(t, key))))
          || (Find(t, key).right.Leaf? && Find(t, key).node != NodeOf(Rightmost(t)))
    ensures NodeOf(Rightmost(Graft(t, key, s))) == NodeOf(Rightmost(t))
  {
    if key < t.data.key {
      GraftKeepsRightmost'(t.left, key);
    } else if t.data.key < key {
      GraftKeepsRightmost(t.right, key, s);
    }
  }

  lemma GraftKeepsRightmost'(t: Tree, key: int)
    ensures Nodes(Find(t, key)) <= Nodes(t)
  {
  }

  lemma {:induction false} GraftKeepsLeftmost(t: Tree, key: int, s: Tree)
    requires Distinct(t) && Find(t, key).Fork?
    requires (s.Fork? && NodeOf(Leftmost(s)) == NodeOf(Leftmost(Find(t, key))))
          || (Find(t, key).left.Leaf? && Find(t, key).node != NodeOf(Leftmost(t)))
    ensures NodeOf(Leftmost(Graft(t, key, s))) == NodeOf(Leftmost(t))
  {
    if key < t.data.key {
      GraftKeepsLeftmost(t.left, key, s);
    } else if t.data.key < key {
      GraftKeepsRightmost'(t.right, key);
    }
  }

  /** When the maximum node goes, the maximum of its remaining child takes over. */
  lemma {:induction false} GraftNewRightmost(t: Tree, key: int, s: Tree)
    requires Search(t) && Distinct(t) && Find(t, key).Fork? && s.Fork?
    requires Find(t, key).node == NodeOf(Rightmost(t))
    ensures NodeOf(Rightmost(Graft(t, key, s))) == NodeOf(Rightmost(s))
  {
    GraftKeepsRightmost'(t.left, key);
    if t.right.Fork? {
      RightmostMax(t.right);
      if t.data.key < key {
        GraftNewRightmost(t.right, key, s);
      }
    }
  }

  lemma {:induction false} GraftNewLeftmost(t: Tree, key: int, s: Tree)
    requires Search(t) && Distinct(t) && Find(t, key).Fork? && s.Fork?
    requires Find(t, key).node == NodeOf(Leftmost(t))
    ensures NodeOf(Leftmost(Graft(t, key, s))) == NodeOf(Leftmost(s))
  {
    GraftKeepsRightmost'(t.right, key);
    if t.left.Fork? {
      LeftmostMin(t.left);
      if key < t.data.key {
        GraftNewLeftmost(t.left, key, s);
      }
    }
  }

  // ---------------------------------------------------------------- lemmas: removal

  /** The predecessor of a root with two children, and what it leaves behind. */
  lemma {:induction false} PredecessorOut(l: Tree)
    requires l.Fork? && Search(l)
    ensures var p := Rightmost(l);
            var u := Graft(l, p.data.key, p.left);
            && Find(l, p.data.key) == p
            && Search(p) && Search(p.left) && p.count >= 1
            && KeySet(p.left) <= KeySet(p)
            && p.data.key !in KeySet(p.left)
            && p.data.key in KeySet(l)
            && p.count == Bag(l)[p.data.key]
            && (forall x :: x in KeySet(l) ==> x <= p.data.key)
            && Search(u)
            && Size(u) == Size(l) - 1
            && Dups(u) == Dups(l) - (p.count - 1)
  {
    var p := Rightmost(l);
    RightmostMax(l);
    FindBag(l, p.data.key);
    GraftSearch(l, p.data.key, p.left);
    GraftSize(l, p.data.key, p.left);
  }

  lemma {:induction false} PredecessorKeys(l: Tree, x: int)
    requires l.Fork? && Search(l)
    ensures var p := Rightmost(l);
            var u := Graft(l, p.data.key, p.left);
            && (x in KeySet(u) <==> x in KeySet(l) && x != p.data.key)
            && Bag(u)[x] == (if x == p.data.key then 0 else Bag(l)[x])
            && Kept(u, x) == (if x == p.data.key then None else Kept(l, x))
  {
    var p := Rightmost(l);
    PredecessorOut(l);
    GraftKeys(l, p.data.key, p.left, x);
    GraftBag(l, p.data.key, p.left, x);
    GraftBag(l, p.data.key, p, x);
    GraftKept(l, p.data.key, p.left, x);
    BagDomain(p.left);
    FindBag(p.left, x);
    if x in KeySet(p) { FindSide(l, p.data.key, x); }
    GraftSelf(l, p.data.key);
  }

  lemma GraftSelf(t: Tree, key: int)
    ensures Graft(t, key, Find(t, key)) == t
  {
  }

  lemma {:induction false} UprootedKeys(s: Tree, x: int)
    requires s.Fork? && Search(s)
    ensures x in KeySet(Uprooted(s)) <==> x in KeySet(s) && x != s.data.key
  {
    if TwoChildren(s) {
      PredecessorOut(s.left);
      PredecessorKeys(s.left, x);
    }
  }

  lemma {:induction false} UprootedSearch(s: Tree)
    requires s.Fork? && Search(s)
    ensures Search(Uprooted(s))
    ensures Size(Uprooted(s)) == Size(s) - 1
    ensures Dups(Uprooted(s)) == Dups(s) - (s.count - 1)
  {
    if TwoChildren(s) {
      var p := Rightmost(s.left);
      PredecessorOut(s.left);
      forall x | x in KeySet(Graft(s.left, p.data.key, p.left)) ensures x < p.data.key {
        PredecessorKeys(s.left, x);
      }
    }
  }

  lemma {:induction false} UprootedBag(s: Tree, x: int)
    requires s.Fork? && Search(s)
    ensures Bag(Uprooted(s))[x] == if x == s.data.key then 0 else Bag(s)[x]
  {
    hide Bag;
    BagAt(s, x);
    NotInBag(s.left, x);
    NotInBag(s.right, x);
    if TwoChildren(s) {
      UprootedSearch(s);
      BagAt(Uprooted(s), x);
      PredecessorOut(s.left);
      PredecessorKeys(s.left, x);
    } else {
      NotInBag(Leaf, x);
    }
  }

  lemma {:induction false} UprootedKept(s: Tree, x: int)
    requires s.Fork? && Search(s)
    ensures Kept(Uprooted(s), x) == if x == s.data.key then None else Kept(s, x)
  {
    hide Bag, Size, Dups, Nodes;
    FindBag(s.left, x);
    FindBag(s.right, x);
    if TwoChildren(s) {
      PredecessorOut(s.left);
      PredecessorKeys(s.left, x);
    }
  }

  /** Removing a key takes away its node and all its references, and nothing else. */
  lemma {:induction false} RemovedMeans(t: Tree, key: int)
    requires Search(t) && key in KeySet(t)
    ensures Search(Removed(t, key))
    ensures Bag(Removed(t, key)) == Bag(t)[key := 0]
    ensures forall x :: Kept(Removed(t, key), x) == if x == key then None else Kept(t, x)
    ensures Size(Removed(t, key)) == Size(t) - 1
    ensures Dups(Removed(t, key)) == Dups(t) - Bag(t)[key] + 1
  {
    var s := Find(t, key);
    FindBag(t, key);
    UprootedSearch(s);
    forall x ensures x in KeySet(Uprooted(s)) ==> x in KeySet(s) { UprootedKeys(s, x); }
    GraftSearch(t, key, Uprooted(s));
    GraftSize(t, key, Uprooted(s));
    GraftSelf(t, key);
    forall x ensures Bag(Removed(t, key))[x] == Bag(t)[key := 0][x] {
      UprootedBag(s, x);
      GraftBag(t, key, Uprooted(s), x);
      GraftBag(t, key, s, x);
    }
    forall x ensures Kept(Removed(t, key), x) == if x == key then None else Kept(t, x) {
      UprootedKept(s, x);
      GraftKept(t, key, Uprooted(s), x);
    }
  }

  lemma {:induction false} SurvivorRoot(s: Tree, x: int)
    requires Search(s) && s.Fork? && s.count > 1
    ensures var u := s.(count := s.count - 1);
            && Search(u) && KeySet(u) == KeySet(s) && Size(u) == Size(s) && Dups(u) == Dups(s) - 1
            && Bag(u)[x] + (if x == s.data.key then 1 else 0) == Bag(s)[x]
            && Kept(u, x) == Kept(s, x)
  {
    BagDomain(s.left);
    BagDomain(s.right);
  }

  lemma {:induction false} SurvivorShape(t: Tree, key: int)
    requires Search(t) && Find(t, key).Fork? && Find(t, key).count > 1
    ensures var u := Graft(t, key, Find(t, key).(count := Find(t, key).count - 1));
            Search(u) && Size(u) == Size(t) && Dups(u) == Dups(t) - 1
  {
    SurvivorMeans(t, key);
  }

  lemma {:induction false} SurvivorMeans(t: Tree, key: int)
    requires Search(t) && Find(t, key).Fork? && Find(t, key).count > 1
    ensures var u := Graft(t, key, Find(t, key).(count := Find(t, key).count - 1));
            && Search(u) && Size(u) == Size(t) && Dups(u) == Dups(t) - 1
            && Bag(u) == Bag(t) - multiset{key}
            && (forall x :: Kept(u, x) == Kept(t, x))
  {
    var s := Find(t, key);
    FindBag(t, key);
    var u := s.(count := s.count - 1);
    SurvivorRoot(s, key);
    GraftSearch(t, key, u);
    GraftSize(t, key, u);
    forall x
      ensures Bag(Graft(t, key, u))[x] + (if x == key then 1 else 0) == Bag(t)[x]
      ensures Kept(Graft(t, key, u), x) == Kept(t, x)
    {
      SurvivorElement(t, key, x);
    }
    SameBag(Bag(Graft(t, key, u)), Bag(t), key);
  }

  lemma SameBag(a: multiset<int>, b: multiset<int>, key: int)
    requires forall x :: a[x] + (if x == key then 1 else 0) == b[x]
    ensures a == b - multiset{key}
  {
    assert b[key] >= 1;
    forall x ensures a[x] == (b - multiset{key})[x] {
      assert a[x] + (if x == key then 1 else 0) == b[x];
    }
  }

  lemma {:induction false} SurvivorElement(t: Tree, key: int, x: int)
    requires Search(t) && Find(t, key).Fork? && Find(t, key).count > 1
    ensures var u := Graft(t, key, Find(t, key).(count := Find(t, key).count - 1));
            && Bag(u)[x] + (if x == key then 1 else 0) == Bag(t)[x]
            && Kept(u, x) == Kept(t, x)
  {
    var s := Find(t, key);
    FindBag(t, key);
    SurvivorRoot(s, x);
    GraftSelf(t, key);
    GraftBag(t, key, s.(count := s.count - 1), x);
    GraftBag(t, key, s, x);
    GraftKept(t, key, s.(count := s.count - 1), x);
  }

  /** Dropping a reference takes one from the key's multiplicity, and touches nothing else;
      the data pointer is kept as long as references remain. */
  lemma {:induction false} DereffedMeans(t: Tree, key: int)
    requires Search(t)
    ensures Search(Dereffed(t, key))
    ensures Bag(Dereffed(t, key)) == Bag(t) - multiset{key}
    ensures forall x :: Kept(Dereffed(t, key), x) == if x == key && Bag(t)[key] <= 1 then None else Kept(t, x)
    ensures Size(Dereffed(t, key)) == Size(t) - (if Bag(t)[key] == 1 then 1 else 0)
    ensures Dups(Dereffed(t, key)) == Dups(t) - (if Bag(t)[key] > 1 then 1 else 0)
  {
    FindBag(t, key);
    if Find(t, key).Leaf? {
      DereffedMissing(t, key);
    } else if Find(t, key).count > 1 {
      DereffedSurvivor(t, key);
    } else {
      DereffedLast(t, key);
    }
  }

  lemma {:induction false} DereffedMissing(t: Tree, key: int)
    requires Search(t) && Find(t, key).Leaf?
    ensures Bag(t) == Bag(t) - multiset{key}
    ensures Bag(t)[key] == 0
  {
    FindBag(t, key);
    BagDomain(t);
  }

  lemma {:induction false} DereffedSurvivor(t: Tree, key: int)
    requires Search(t) && Find(t, key).Fork? && Find(t, key).count > 1
    ensures var u := Dereffed(t, key);
            && Search(u)
            && Bag(u) == Bag(t) - multiset{key}
            && (forall x :: Kept(u, x) == Kept(t, x))
            && Size(u) == Size(t)
            && Dups(u) == Dups(t) - 1
            && Bag(t)[key] > 1
  {
    FindBag(t, key);
    SurvivorMeans(t, key);
  }

  lemma {:induction false} DereffedLast(t: Tree, key: int)
    requires Search(t) && Find(t, key).Fork? && Find(t, key).count == 1
    ensures var u := Dereffed(t, key);
            && Search(u)
            && Bag(u) == Bag(t) - multiset{key}
            && (forall x :: Kept(u, x) == if x == key then None else Kept(t, x))
            && Size(u) == Size(t) - 1
            && Dups(u) == Dups(t)
            && Bag(t)[key] == 1
  {
    FindBag(t, key);
    RemovedMeans(t, key);
    assert Bag(t)[key := 0] == Bag(t) - multiset{key};
  }

  /** A node with at most one child makes way for that child. */
  lemma {:induction false} UnlinkMeans(t: Tree, key: int)
    requires Search(t) && Distinct(t) && Find(t, key).Fork? && !TwoChildren(Find(t, key))
    ensures var s := Find(t, key);
            var c := Uprooted(s);
            && c == (if s.left.Leaf? then s.right else s.left)
            && Distinct(c) && Search(c) && Nodes(c) <= Nodes(s) - {s.node} && KeySet(c) <= KeySet(s)
            && Removed(t, key) == Graft(t, key, c)
            && Size(Removed(t, key)) == Size(t) - 1
            && Dups(Removed(t, key)) == Dups(t) - (s.count - 1)
            && s.count == Bag(t)[key]
            && (s.node != NodeOf(Rightmost(t)) ==> NodeOf(Rightmost(Graft(t, key, c))) == NodeOf(Rightmost(t)))
            && (s.node != NodeOf(Leftmost(t)) ==> NodeOf(Leftmost(Graft(t, key, c))) == NodeOf(Leftmost(t)))
            && (s.node == NodeOf(Rightmost(t)) && s.left.Fork? ==> NodeOf(Rightmost(Graft(t, key, c))) == NodeOf(Rightmost(s.left)))
            && (s.node == NodeOf(Leftmost(t)) && s.right.Fork? ==> NodeOf(Leftmost(Graft(t, key, c))) == NodeOf(Leftmost(s.right)))
            && s.data.key == key
  {
    var s := Find(t, key);
    FindBag(t, key);
    FindNodes(t, key);
    UprootedSearch(s);
    if s.node == NodeOf(Rightmost(t)) && s.left.Fork? {
      GraftNewRightmost(t, key, s.left);
    }
    if s.node == NodeOf(Leftmost(t)) && s.right.Fork? {
      GraftNewLeftmost(t, key, s.right);
    }
    GraftSize(t, key, Uprooted(s));
    if s.node != NodeOf(Rightmost(t)) {
      GraftKeepsRightmost(t, key, Uprooted(s));
    }
    if s.node != NodeOf(Leftmost(t)) {
      GraftKeepsLeftmost(t, key, Uprooted(s));
    }
  }

  // ---------------------------------------------------------------- lemmas: nested replacement

  /** Replacing below `key` is replacing `key`'s subtree by its own replacement. */
  lemma {:induction false} GraftBelow(t: Tree, key: int, low: int, s: Tree)
    requires Search(t) && low in KeySet(Find(t, key))
    ensures Find(t, low) == Find(Find(t, key), low)
    ensures Graft(t, low, s) == Graft(t, key, Graft(Find(t, key), low, s))
  {
    if key < t.data.key {
      GraftBelow(t.left, key, low, s);
      FindSide(t.left, key, low);
    } else if t.data.key < key {
      GraftBelow(t.right, key, low, s);
      FindSide(t.right, key, low);
    }
  }

  lemma GraftTwice(t: Tree, key: int, a: Tree, b: Tree)
    requires a.Fork? && a.data.key == key
    ensures Graft(Graft(t, key, a), key, b) == Graft(t, key, b)
    ensures Find(t, key).Fork? ==> Find(Graft(t, key, a), key) == a
  {
  }

  lemma ParentOutside(t: Tree, key: int, above: Node?)
    requires Distinct(t) && Find(t, key).Fork?
    ensures Parent(t, key, above) == above || (Parent(t, key, above) in Nodes(t) && Parent(t, key, above) !in Nodes(Find(t, key)))
    ensures t.Fork? && t.data.key != key ==> Parent(t, key, above) in Nodes(t) && Parent(t, key, above) !in Nodes(Find(t, key))
    ensures Nodes(Find(t, key)) <= Nodes(t)
  {
  }

  /** Rewriting the data of a node keeps the nodes and the extreme nodes. */
  lemma {:induction false} RefillMeans(t: Tree, key: int, d: Ref, c: int)
    requires Distinct(t) && Find(t, key).Fork?
    ensures var u := Graft(t, key, Find(t, key).(data := d, count := c));
            && Distinct(u) && Nodes(u) == Nodes(t) && Size(u) == Size(t)
            && NodeOf(u) == NodeOf(t)
            && NodeOf(Rightmost(u)) == NodeOf(Rightmost(t))
            && NodeOf(Leftmost(u)) == NodeOf(Leftmost(t))
  {
    var s := Find(t, key);
    var s' := s.(data := d, count := c);
    FindNodes(t, key);
    assert Nodes(s') == Nodes(s) && Size(s') == Size(s);
    GraftDistinct(t, key, s');
    forall n | n in Nodes(t) ensures n in Nodes(Graft(t, key, s')) { GraftNodes(t, key, s', n); }
    GraftSize(t, key, s');
    GraftKeepsRightmost(t, key, s');
    GraftKeepsLeftmost(t, key, s');
  }

  /** Removing a node with two children: take the predecessor out, then let the node carry
      the predecessor's entry. */
  lemma {:induction false} ReplaceMeans(t: Tree, key: int)
    requires Search(t) && Distinct(t) && TwoChildren(Find(t, key))
    ensures var s := Find(t, key);
            var p := Rightmost(s.left);
            var t1 := Removed(t, p.data.key);
            && Find(t, p.data.key) == p
            && Find(t1, key).Fork? && NodeOf(Find(t1, key)) == s.node
            && Find(t1, key).data == s.data && Find(t1, key).count == s.count
            && Removed(t, key) == Graft(t1, key, Find(t1, key).(data := p.data, count := p.count))
            && Search(Removed(t, key))
            && Size(Removed(t, key)) == Size(t) - 1
            && Dups(Removed(t, key)) == Dups(t) - (s.count - 1)
            && p.data.key != key && s.data.key == key
  {
    var s := Find(t, key);
    var p := Rightmost(s.left);
    FindBag(t, key);
    PredecessorOut(s.left);
    GraftBelow(t, key, p.data.key, p.left);
    var s1 := Fork(Graft(s.left, p.data.key, p.left), s.node, s.data, s.count, s.right);
    assert Graft(s, p.data.key, p.left) == s1;
    assert Removed(t, p.data.key) == Graft(t, key, s1);
    GraftTwice(t, key, s1, Uprooted(s));
    RemovedMeans(t, key);
    BagDomain(t);
  }

  /** The predecessor of a node with two children has no right child and holds its own entry. */
  lemma {:induction false} CandidateMeans(t: Tree, key: int)
    requires Linked(t) && Search(t) && TwoChildren(Find(t, key))
    ensures var p := Rightmost(Find(t, key).left);
            && p.node.data == p.data && p.node.ref == p.count
            && Find(t, p.data.key) == p && !TwoChildren(p)
            && p.data.key in KeySet(t)
  {
    var s := Find(t, key);
    FindBag(t, key);
    PredecessorOut(s.left);
    GraftBelow(t, key, Rightmost(s.left).data.key, Leaf);
    FindSide(t, key, Rightmost(s.left).data.key);
    LinkedAt(t, Rightmost(s.left).data.key);
  }

  /** The parent on the search path links to the node it leads to, and only once. */
  lemma {:induction false} LinkedParent(t: Tree, key: int, above: Node?)
    requires Linked(t) && Distinct(t) && Find(t, key).Fork? && t.data.key != key
    ensures Parent(t, key, above) == Parent(t, key, null) && Parent(t, key, above) != null
    ensures var p := Parent(t, key, above);
            && (p.left == Find(t, key).node || p.right == Find(t, key).node)
            && p.left != p.right
  {
    var path := if key < t.data.key then t.left else t.right;
    if path.data.key != key {
      LinkedParent(path, key, t.node);
    }
    NodeInNodes(t.left);
    NodeInNodes(t.right);
  }

  lemma NodeInNodes(t: Tree)
    ensures t.Fork? ==> NodeOf(t) in Nodes(t)
  {
  }

  // ---------------------------------------------------------------- lemmas: heap steps

  lemma FindParts(t: Tree, key: int)
    requires Find(t, key).Fork?
    ensures Find(t, key).node in Nodes(Find(t, key)) && Nodes(Find(t, key)) <= Nodes(t)
  {
  }

  lemma Parts(t: Tree)
    ensures t.Leaf? ==> Nodes(t) == {} && KeySet(t) == {}
    ensures t.Fork? ==> Nodes(t) == Nodes(t.left) + {t.node} + Nodes(t.right)
    ensures t.Fork? && Search(t) ==> Search(t.left) && Search(t.right)
    ensures t.Fork? && Distinct(t) ==>
              && Distinct(t.left) && Distinct(t.right) && t.node !in Nodes(t.left) && t.node !in Nodes(t.right)
              && Nodes(t.left) !! Nodes(t.right)
    ensures t.Fork? && Search(t) ==> forall k :: k in KeySet(t) <==>
              k == t.data.key || (if k < t.data.key then k in KeySet(t.left) else k in KeySet(t.right))
  {
  }

  lemma NodesAllocated(t: Tree)
    ensures forall n :: n in Nodes(t) ==> allocated(n)
  {
  }

  twostate predicate Untouched(ns: set<Node>, new others: set<Node?>)
    reads ns
  {
    forall n :: n in ns && n !in others ==> n.data == old(n.data) && n.ref == old(n.ref) && n.left == old(n.left) && n.right == old(n.right)
  }

  /** The link of `parent` that pointed to `node` points to `candidate` now. */
  twostate predicate Relinked(parent: Node, node: Node, new candidate: Node?)
    reads parent
  {
    && parent.data == old(parent.data) && parent.ref == old(parent.ref)
    && (if old(parent.left) == node
        then parent.left == candidate && parent.right == old(parent.right)
        else parent.right == candidate && parent.left == old(parent.left))
  }

  twostate lemma LinkedFrame(t: Tree)
    requires old(Linked(t)) && Untouched(Nodes(t), {})
    ensures Linked(t)
  {
  }

  /** Redirecting the parent's link from the node at `key` to the root of `s` grafts `s`
      in its place. */
  twostate lemma {:induction false} LinkedGraft(t: Tree, new key: int, new s: Tree)
    requires old(Linked(t)) && Distinct(t)
    requires t.Fork? && t.data.key != key && Find(t, key).Fork?
    requires Linked(s)
    requires Untouched(Nodes(t), Nodes(Find(t, key)) + {Parent(t, key, null)})
    requires Parent(t, key, null) != null ==> Relinked(Parent(t, key, null), Find(t, key).node, NodeOf(s))
    ensures Linked(Graft(t, key, s))
  {
    ParentOutside(t, key, null);
    var path, side := if key < t.data.key then t.left else t.right, if key < t.data.key then t.right else t.left;
    ParentOutside(path, key, t.node);
    LinkedFrame(side);
    if path.data.key != key {
      ParentOutside(path, key, null);
      LinkedGraft(path, key, s);
    }
  }

  /** Rewriting the data and count of the node at `key` rewrites them in the picture. */
  twostate lemma {:induction false} LinkedRefill(t: Tree, new key: int)
    requires old(Linked(t)) && Distinct(t) && Find(t, key).Fork?
    requires Untouched(Nodes(t), {Find(t, key).node})
    requires var n := Find(t, key).node; n.left == old(n.left) && n.right == old(n.right)
    ensures var s := Find(t, key);
            Linked(Graft(t, key, s.(data := s.node.data, count := s.node.ref)))
  {
    FindNodes(t.left, key);
    FindNodes(t.right, key);
    if key < t.data.key {
      LinkedFrame(t.right);
      LinkedRefill(t.left, key);
    } else if t.data.key < key {
      LinkedFrame(t.left);
      LinkedRefill(t.right, key);
    } else {
      LinkedFrame(t.left);
      LinkedFrame(t.right);
    }
  }
}
