/**
 The string dictionary of src/etc/etc_dict.c: three parallel slot arrays, searched
 linearly, filled by probing from slot `n` with wrap-around, and doubled when full.

 The dictionary refines the partial map `Entries()`; the hash function is a parameter and
 may be any function at all.
 */
module Dictionaries {
  import opened Options

  const DICTMINSZ := 128

  /** The number of occupied slots. */
  function Occupied(keys: seq<Option<string>>): nat {
    if keys == [] then 0
    else Occupied(keys[..|keys| - 1]) + if keys[|keys| - 1].Some? then 1 else 0
  }

  lemma {:induction false} OccupiedBound(keys: seq<Option<string>>)
    ensures Occupied(keys) <= |keys|
    ensures (forall i :: 0 <= i < |keys| ==> keys[i].Some?) ==> Occupied(keys) == |keys|
    ensures (forall i :: 0 <= i < |keys| ==> keys[i].None?) ==> Occupied(keys) == 0
    decreases |keys|
  {
    if keys != [] {
      var init := keys[..|keys| - 1];
      OccupiedBound(init);
      assert forall i :: 0 <= i < |init| ==> init[i] == keys[i];
    }
  }

  /** Filling or freeing a slot changes the count by one. */
  lemma {:induction false} OccupiedUpdate(keys: seq<Option<string>>, i: nat, k: Option<string>)
    requires i < |keys|
    ensures Occupied(keys[i := k]) ==
            Occupied(keys) + (if k.Some? then 1 else 0) - (if keys[i].Some? then 1 else 0)
    decreases |keys|
  {
    var last := |keys| - 1;
    if i == last {
      assert keys[i := k][..last] == keys[..last];
    } else {
      assert keys[i := k][..last] == keys[..last][i := k];
      OccupiedUpdate(keys[..last], i, k);
    }
  }

  /** Free slots appended at the end do not count. */
  lemma {:induction false} OccupiedExtend(keys: seq<Option<string>>, free: nat)
    ensures Occupied(keys + seq(free, _ => None)) == Occupied(keys)
    decreases free
  {
    var more := seq(free, _ => None);
    if free > 0 {
      assert (keys + more)[..|keys| + free - 1] == keys + seq(free - 1, _ => None);
      OccupiedExtend(keys, free - 1);
    } else {
      assert keys + more == keys;
    }
  }

  /** The three slot arrays as values. */
  datatype Slots = Slots(keys: seq<Option<string>>, vals: seq<Option<string>>, hashes: seq<int>)

  /** Keys are unique (each is found in one slot), stored hashes match, free slots are clean,
      and `n` counts both the occupied slots and the keys. */
  ghost predicate Consistent(s: Slots, slot: map<string, nat>, hashOf: string -> int, n: int) {
    && |s.keys| == |s.vals| == |s.hashes|
    && (forall k :: k in slot ==> slot[k] < |s.keys| && s.keys[slot[k]] == Some(k))
    && (forall i :: 0 <= i < |s.keys| ==>
          if s.keys[i].Some? then s.keys[i].value in slot && slot[s.keys[i].value] == i && s.hashes[i] == hashOf(s.keys[i].value)
          else s.vals[i] == None && s.hashes[i] == 0)
    && n == |slot| == Occupied(s.keys)
  }

  /** The partial map that the slots represent. */
  ghost function Represented(s: Slots, slot: map<string, nat>): map<string, Option<string>> {
    map k | k in slot && slot[k] < |s.vals| :: s.vals[slot[k]]
  }

  lemma {:induction false} FillSlot(s: Slots, slot: map<string, nat>, hashOf: string -> int, n: int, i: nat, k: string, v: Option<string>)
    requires Consistent(s, slot, hashOf, n) && i < |s.keys| && s.keys[i] == None && k !in slot
    ensures var u := Slots(s.keys[i := Some(k)], s.vals[i := v], s.hashes[i := hashOf(k)]);
            && Consistent(u, slot[k := i], hashOf, n + 1)
            && Represented(u, slot[k := i]) == Represented(s, slot)[k := v]
  {
    hide Represented, Occupied;
    OccupiedUpdate(s.keys, i, Some(k));
    WithKey(slot, k, i);
    FilledMap(s, slot, hashOf, n, i, k, v);
  }

  lemma WithKey(slot: map<string, nat>, k: string, i: nat)
    requires k !in slot
    ensures |slot[k := i]| == |slot| + 1
  {
    assert slot[k := i].Keys == slot.Keys + {k};
  }

  lemma {:induction false} FilledMap(s: Slots, slot: map<string, nat>, hashOf: string -> int, n: int, i: nat, k: string, v: Option<string>)
    requires Consistent(s, slot, hashOf, n) && i < |s.keys| && s.keys[i] == None && k !in slot
    ensures var u := Slots(s.keys[i := Some(k)], s.vals[i := v], s.hashes[i := hashOf(k)]);
            Represented(u, slot[k := i]) == Represented(s, slot)[k := v]
  {
  }

  lemma {:induction false} ReplaceValue(s: Slots, slot: map<string, nat>, hashOf: string -> int, n: int, k: string, v: Option<string>)
    requires Consistent(s, slot, hashOf, n) && k in slot
    ensures var u := s.(vals := s.vals[slot[k] := v]);
            && Consistent(u, slot, hashOf, n)
            && Represented(u, slot) == Represented(s, slot)[k := v]
  {
  }

  lemma {:induction false} ClearSlot(s: Slots, slot: map<string, nat>, hashOf: string -> int, n: int, k: string)
    requires Consistent(s, slot, hashOf, n) && k in slot
    ensures var i := slot[k];
            var u := Slots(s.keys[i := None], s.vals[i := None], s.hashes[i := 0]);
            && Consistent(u, slot - {k}, hashOf, n - 1)
            && Represented(u, slot - {k}) == Represented(s, slot) - {k}
  {
    hide Represented, Occupied;
    OccupiedUpdate(s.keys, slot[k], None);
    WithoutKey(slot, k);
    var rest := slot - {k};
    assert forall j :: j in rest ==> rest[j] == slot[j] != slot[k];
    ClearedMap(s, slot, hashOf, n, k);
  }

  lemma WithoutKey(slot: map<string, nat>, k: string)
    requires k in slot
    ensures |slot - {k}| == |slot| - 1
  {
    assert (slot - {k}).Keys == slot.Keys - {k};
  }

  lemma {:induction false} ClearedMap(s: Slots, slot: map<string, nat>, hashOf: string -> int, n: int, k: string)
    requires Consistent(s, slot, hashOf, n) && k in slot
    ensures var i := slot[k];
            var u := Slots(s.keys[i := None], s.vals[i := None], s.hashes[i := 0]);
            Represented(u, slot - {k}) == Represented(s, slot) - {k}
  {
  }

  lemma {:induction false} DoubleSlots(s: Slots, slot: map<string, nat>, hashOf: string -> int, n: int, u: Slots)
    requires Consistent(s, slot, hashOf, n)
    requires u.keys == s.keys + seq(|s.keys|, _ => None) && u.vals == s.vals + seq(|s.keys|, _ => None)
    requires u.hashes == s.hashes + seq(|s.keys|, _ => 0)
    ensures Consistent(u, slot, hashOf, n) && Represented(u, slot) == Represented(s, slot)
  {
    OccupiedExtend(s.keys, |s.keys|);
  }

  lemma {:induction false} FreeSlots(length: nat, hashOf: string -> int)
    ensures var s := Slots(seq(length, _ => None), seq(length, _ => None), seq(length, _ => 0));
            Consistent(s, map[], hashOf, 0) && Represented(s, map[]) == map[]
  {
    OccupiedBound(seq(length, _ => None));
  }

  lemma {:induction false} SomeFree(s: Slots, slot: map<string, nat>, hashOf: string -> int, n: int) returns (free: nat)
    requires Consistent(s, slot, hashOf, n) && n < |s.keys|
    ensures free < |s.keys| && s.keys[free] == None
  {
    OccupiedBound(s.keys);
    free :| free < |s.keys| && s.keys[free] == None;
  }

  class Dictionary {
    const hashOf: string -> int
    var n: int
    var size: int
    var key: array<Option<string>>
    var val: array<Option<string>>
    var hash: array<int>
    /** Where each key is stored. */
    ghost var slot: map<string, nat>

    ghost function Content(): Slots
      reads this, key, val, hash
    {
      Slots(key[..], val[..], hash[..])
    }

    ghost predicate Valid()
      reads this, key, val, hash
    {
      && key.Length == val.Length == hash.Length == size && DICTMINSZ <= size && key != val
      && Consistent(Content(), slot, hashOf, n)
    }

    /** The partial map that the dictionary is. */
    ghost function Entries(): map<string, Option<string>>
      reads this, key, val, hash
    {
      Represented(Content(), slot)
    }

    ghost function Arrays(): set<object>
      reads this
    {
      {key, val, hash}
    }

    constructor (size: int, hashOf: string -> int)
      ensures Valid() && fresh(Arrays()) && this.hashOf == hashOf
      ensures Entries() == map[] && this.size == if size < 128 then 128 else size
    {
      var length := if size < DICTMINSZ then DICTMINSZ else size;
      this.hashOf := hashOf;
      this.size := length;
      n := 0;
      key := new Option<string>[length](_ => None);
      val := new Option<string>[length](_ => None);
      hash := new int[length](_ => 0);
      slot := map[];
      new;
      hide Consistent, Represented;
      assert key[..] == seq(length, _ => None) && val[..] == seq(length, _ => None) && hash[..] == seq(length, _ => 0);
      FreeSlots(length, hashOf);
    }

    /** The slot of a key, or `size`: hashes are compared first, then the keys. */
    method Search(k: string) returns (i: nat)
      requires Valid()
      ensures i == if k in slot then slot[k] else size
    {
      var h := hashOf(k);
      i := 0;
      while i < size
        invariant 0 <= i <= size
        invariant k in slot ==> i <= slot[k]
      {
        assert key[i] == Content().keys[i] && hash[i] == Content().hashes[i];
        if key[i] != None && h == hash[i] && k == key[i].value {
          return;
        }
        i := i + 1;
      }
    }

    method Get(k: string, default: Option<string>) returns (v: Option<string>)
      requires Valid()
      ensures v == if k in Entries() then Entries()[k] else default
    {
      var i := Search(k);
      v := if i < size then val[i] else default;
    }

    method HasKey(k: string) returns (found: bool)
      requires Valid()
      ensures found <==> k in Entries()
    {
      var i := Search(k);
      found := i < size;
    }

    /** Doubles the arrays; every entry keeps its slot. */
    method Grow()
      requires Valid()
      modifies this
      ensures Valid() && fresh(Arrays()) && size == 2 * old(size) && n == old(n) && slot == old(slot)
      ensures Entries() == old(Entries())
    {
      hide Consistent, Represented;
      ghost var before := Content();
      var key' := Doubled(key, None);
      var val' := Doubled(val, None);
      var hash' := Doubled(hash, 0);
      key, val, hash, size := key', val', hash', 2 * size;
      DoubleSlots(before, slot, hashOf, n, Content());
    }

    /** A copy of twice the length, filled up with `zero`. */
    static method Doubled<T>(a: array<T>, zero: T) returns (b: array<T>)
      ensures fresh(b) && b[..] == a[..] + seq(a.Length, _ => zero)
    {
      b := new T[2 * a.Length](_ => zero);
      forall i | 0 <= i < a.Length { b[i] := a[i]; }
      assert b[..] == a[..] + seq(a.Length, _ => zero);
    }

    /** Sets a key: replaces its value in place, or takes the first free slot from `n` on. */
    method Set(k: Option<string>, v: Option<string>) returns (status: int)
      requires Valid()
      modifies this, Arrays()
      ensures Valid() && (Arrays() == old(Arrays()) || fresh(Arrays()))
      ensures status == if k.None? then -1 else 0
      ensures Entries() == if k.None? then old(Entries()) else old(Entries())[k.value := v]
    {
      if k == None { return -1; }
      KnownOnlyIfAny();
      if n > 0 {
        var i := Search(k.value);
        if i < size {
          Replace(i, k.value, v);
          return 0;
        }
      }
      if n == size {
        Grow();
      }
      Fill(k.value, v);
      status := 0;
    }

    lemma KnownOnlyIfAny()
      requires Valid()
      ensures n <= size && forall k :: k in slot ==> n > 0
    {
      OccupiedBound(key[..]);
      forall k | k in slot ensures n > 0 {
        assert slot != map[];
      }
    }

    method Replace(i: nat, ghost k: string, v: Option<string>)
      requires Valid() && k in slot && i == slot[k] < size
      modifies val
      ensures Valid() && Entries() == old(Entries())[k := v]
    {
      hide Consistent, Represented;
      ghost var before := Content();
      ReplaceValue(before, slot, hashOf, n, k, v);
      val[i] := v;
      assert Content() == before.(vals := before.vals[i := v]);
    }

    method Fill(k: string, v: Option<string>)
      requires Valid() && k !in slot && n < size
      modifies this, key, val, hash
      ensures Valid() && Arrays() == old(Arrays()) && Entries() == old(Entries())[k := v]
    {
      hide Consistent, Represented;
      ghost var before := Content();
      var i := FreeSlot();
      FillSlot(before, slot, hashOf, n, i, k, v);
      key[i] := Some(k);
      val[i] := v;
      hash[i] := hashOf(k);
      assert Content() == Slots(before.keys[i := Some(k)], before.vals[i := v], before.hashes[i := hashOf(k)]);
      slot := slot[k := i];
      n := n + 1;
    }

    /** Probing from slot `n` with wrap-around ends at a free slot. */
    method FreeSlot() returns (i: nat)
      requires Valid() && n < size
      ensures i < size && key[i] == None
    {
      ghost var free := SomeFree(Content(), slot, hashOf, n);
      i := n;
      while key[i] != None
        invariant 0 <= i < size
        decreases if i <= free then free - i else free - i + size
      {
        i := i + 1;
        if i == size { i := 0; }
      }
    }

    method Unset(k: Option<string>)
      requires Valid()
      modifies this, Arrays()
      ensures Valid() && Arrays() == old(Arrays())
      ensures Entries() == if k.None? then old(Entries()) else old(Entries()) - {k.value}
    {
      if k == None { return; }
      var i := Search(k.value);
      if i >= size {
        assert Entries() - {k.value} == Entries();
        return;
      }
      Clear(i, k.value);
    }

    method Clear(i: nat, ghost k: string)
      requires Valid() && k in slot && i == slot[k] < size
      modifies this, key, val, hash
      ensures Valid() && Arrays() == old(Arrays()) && Entries() == old(Entries()) - {k}
    {
      hide Consistent, Represented;
      ghost var before := Content();
      ClearSlot(before, slot, hashOf, n, k);
      key[i] := None;
      val[i] := None;
      hash[i] := 0;
      assert Content() == Slots(before.keys[i := None], before.vals[i := None], before.hashes[i := 0]);
      n := n - 1;
      slot := slot - {k};
    }
  }

  // ---------------------------------------------------------------- whole runs

  datatype Op =
    | SetOp(key: Option<string>, val: Option<string>)
    | UnsetOp(key: Option<string>)
    | GetOp(name: string, default: Option<string>)

  /** The map after one more operation. */
  function Applied(m: map<string, Option<string>>, op: Op): map<string, Option<string>> {
    if op.SetOp? && op.key.Some? then m[op.key.value := op.val]
    else if op.UnsetOp? && op.key.Some? then m - {op.key.value}
    else m
  }

  /** The map after a run of operations on an empty one. */
  function MapAfter(ops: seq<Op>): map<string, Option<string>> {
    if ops == [] then map[] else Applied(MapAfter(ops[..|ops| - 1]), ops[|ops| - 1])
  }

  /** What a lookup answers on the map; other operations answer nothing. */
  function Answer(m: map<string, Option<string>>, op: Op): Option<string> {
    if op.GetOp? then (if op.name in m then m[op.name] else op.default) else None
  }

  /** Whatever the hash function, the dictionary answers every run as the map does. */
  method RunDictionary(size: int, hashOf: string -> int, ops: seq<Op>) returns (answers: seq<Option<string>>)
    ensures |answers| == |ops|
    ensures forall i :: 0 <= i < |ops| ==> answers[i] == Answer(MapAfter(ops[..i]), ops[i])
  {
    hide Dictionary.Valid, Represented, Dictionary.Content, Applied, Answer;
    var d := new Dictionary(size, hashOf);
    answers := [];
    for i := 0 to |ops|
      invariant d.Valid() && fresh(d) && fresh(d.Arrays())
      invariant d.Entries() == MapAfter(ops[..i])
      invariant |answers| == i
      invariant forall j :: 0 <= j < i ==> answers[j] == Answer(MapAfter(ops[..j]), ops[j])
    {
      assert ops[..i + 1][..i] == ops[..i];
      var answer := Perform(d, ops[i]);
      answers := answers + [answer];
    }
  }

  method Perform(d: Dictionary, op: Op) returns (answer: Option<string>)
    requires d.Valid()
    modifies d, d.Arrays()
    ensures d.Valid() && (d.Arrays() == old(d.Arrays()) || fresh(d.Arrays()))
    ensures d.Entries() == Applied(old(d.Entries()), op) && answer == Answer(old(d.Entries()), op)
  {
    hide Dictionary.Valid, Represented, Dictionary.Content;
    answer := None;
    match op {
      case SetOp(k, v) => var _ := d.Set(k, v);
      case UnsetOp(k) => d.Unset(k);
      case GetOp(k, default) => answer := d.Get(k, default);
    }
  }
}
