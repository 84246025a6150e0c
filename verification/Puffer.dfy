/**
 The ring buffer of src/lib/lib_puffers.c: it refines a first-in first-out sequence of
 bounded length.
 */
module Puffers {
  import opened Options

  class Puffer<T> {
    var items: array<Option<T>>
    var start: int
    var end: int
    var count: int
    ghost var contents: seq<T>

    /** The array index of the `i`-th slot after the read position. */
    ghost function Slot(i: int): int
      reads this
    {
      if start + i < items.Length then start + i else start + i - items.Length
    }

    /** The stored items sit in the slots after the read position; every other slot is empty. */
    ghost predicate Valid()
      reads this, items
    {
      && 0 < items.Length && 0 <= start < items.Length && 0 <= count == |contents| <= items.Length
      && end == (if count == items.Length then start else Slot(count))
      && (forall i :: 0 <= i < count ==> items[Slot(i)] == Some(contents[i]))
      && (forall i :: count <= i < items.Length ==> items[Slot(i)] == None)
    }

    constructor (size: nat)
      requires size > 0
      ensures Valid() && contents == [] && items.Length == size && fresh(items)
    {
      items := new Option<T>[size](_ => None);
      start, end, count := 0, 0, 0;
      contents := [];
    }

    function IsFull(): (full: bool)
      requires Valid()
      reads this, items
      ensures full <==> |contents| == items.Length
    {
      count == items.Length
    }

    function IsEmpty(): (empty: bool)
      requires Valid()
      reads this, items
      ensures empty <==> contents == []
    {
      count == 0
    }

    function PeekFirst(): (first: Option<T>)
      requires Valid()
      reads this, items
      ensures first == if contents == [] then None else Some(contents[0])
    {
      assert Slot(0) == start;
      items[start]
    }

    /** Appends to the contents. A full ring is broken by it: its oldest item is overwritten
        and the count exceeds the ring. */
    method Write(item: T)
      requires Valid()
      modifies this, items
      ensures items == old(items) && (Valid() <==> |old(contents)| < items.Length)
      ensures contents == old(contents) + [item]
      ensures |old(contents)| == items.Length ==> 0 <= start < items.Length && items[start] == Some(item) && count == items.Length + 1
    {
      items[end] := Some(item);
      end := end + 1;
      count := count + 1;
      if items.Length <= end {
        end := 0;
      }
      contents := contents + [item];
      assert forall i :: 0 <= i < items.Length ==> Slot(i) == old(Slot(i));
      assert old(count) < items.Length ==> old(Slot(count)) == old(end);
    }

    /** Takes the oldest item. An empty ring gives none, and is broken by it: the count falls
        below zero and the read position moves on. */
    method Read() returns (item: Option<T>)
      requires Valid()
      modifies this, items
      ensures items == old(items) && (Valid() <==> old(contents) != [])
      ensures old(contents) != [] ==> item == Some(old(contents)[0]) && contents == old(contents)[1..]
      ensures old(contents) == [] ==> item == None && count == -1
    {
      assert Slot(0) == start;
      ghost var length := items.Length;
      item := items[start];
      items[start] := None;
      start := start + 1;
      if items.Length <= start {
        start := 0;
      }
      count := count - 1;
      contents := if contents == [] then [] else contents[1..];
      assert forall i :: 0 <= i < length - 1 ==> Slot(i) == old(Slot(i + 1));
      assert Slot(length - 1) == old(start);
    }
  }
}
