/**
 The calls that a sliding window makes to its plugins, and what they say about the items
 that are live.
 */
module Events {
  import opened Options
  import opened TreeShape

  datatype Event = Added(item: Ref) | Removed(item: Ref)

  /** The items added and not yet removed, oldest first. */
  function Live(log: seq<Event>): seq<Ref> {
    if log == [] then [] else After(Live(log[..|log| - 1]), log[|log| - 1])
  }

  function After(live: seq<Ref>, e: Event): seq<Ref> {
    if e.Added? then live + [e.item] else if live == [] then [] else live[1..]
  }

  /** Only the oldest live item is ever removed. */
  predicate Fifo(log: seq<Event>) {
    log == [] || (
      && Fifo(log[..|log| - 1])
      && (log[|log| - 1].Removed? ==>
            var before := Live(log[..|log| - 1]);
            before != [] && before[0] == log[|log| - 1].item))
  }

  function KeysOf(items: seq<Ref>): seq<int> {
    seq(|items|, i requires 0 <= i < |items| => items[i].key)
  }

  lemma NothingLive(log: seq<Event>)
    ensures multiset(KeysOf(Live(log[..0]))) == multiset{}
  {
  }

  lemma LiveExtend(log: seq<Event>, e: Event)
    ensures Live(log + [e]) == After(Live(log), e)
    ensures Fifo(log + [e]) <==> Fifo(log) && (e.Removed? ==> Live(log) != [] && Live(log)[0] == e.item)
  {
    assert (log + [e])[..|log|] == log;
  }

  lemma {:induction false} FifoPrefix(log: seq<Event>, k: nat)
    requires Fifo(log) && k <= |log|
    ensures Fifo(log[..k])
    decreases |log|
  {
    if k < |log| {
      FifoPrefix(log[..|log| - 1], k);
      assert log[..|log| - 1][..k] == log[..k];
    } else {
      assert log[..k] == log;
    }
  }

  lemma KeysBagAppend(items: seq<Ref>, r: Ref)
    ensures KeysOf(items + [r]) == KeysOf(items) + [r.key]
    ensures multiset(KeysOf(items + [r])) == multiset(KeysOf(items)) + multiset{r.key}
  {
    assert KeysOf(items + [r]) == KeysOf(items) + [r.key];
  }

  lemma KeysBagTail(items: seq<Ref>)
    requires items != []
    ensures KeysOf(items) == [items[0].key] + KeysOf(items[1..])
    ensures multiset(KeysOf(items[1..])) == multiset(KeysOf(items)) - multiset{items[0].key}
  {
    assert KeysOf(items) == [items[0].key] + KeysOf(items[1..]);
  }
}
