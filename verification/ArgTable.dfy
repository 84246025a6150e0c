/**
 Parsing the arguments that carry no option tag, registering errors and checking the counts
 afterwards (src/etc/etc_argtable2.c). A table entry has a scan function of its own, which
 may depend on what the entry accepted before; the table ends with the error list.
 */
module ArgTables {
  import opened Options
  import opened ArgInts

  const ARG_ELIMIT := 1
  const ARG_ENOMATCH := 3
  const ARG_EMISSARG := 5

  /** What an entry accepted: argument texts, and options without an argument. */
  type Taken = seq<Option<string>>

  /** `scans` and `checks` say whether the entry has a scan and a check function; a scan
      answers 0 or an error code. */
  datatype Entry = Entry(tagged: bool, hasValue: bool, scans: bool, checks: bool, mincount: int, maxcount: int,
                         mincode: int, scan: (Taken, Option<string>) -> int)

  /** The scan function refuses an argument once it has accepted `maxcount` of them. */
  ghost predicate Disciplined(e: Entry) {
    && 0 <= e.maxcount && e.mincode != 0
    && forall taken: Taken, arg :: |taken| == e.maxcount ==> e.scan(taken, arg) != 0
  }

  /** The entry of an integer argument. */
  function IntEntry(tagged: bool, mincount: nat, maxcount: nat): Entry {
    Entry(tagged, true, true, true, mincount, maxcount, EMINCOUNT,
          (taken: Taken, arg: Option<string>) => ScanCode(|taken|, maxcount, arg))
  }

  lemma IntEntryDisciplined(tagged: bool, mincount: nat, maxcount: nat)
    ensures Disciplined(IntEntry(tagged, mincount, maxcount))
  {
  }

  /** The error list stands for itself as the culprit `END`. */
  datatype Culprit = END | At(entry: nat)
  datatype Fault = Fault(code: int, culprit: Culprit, arg: Option<string>)

  // ---------------------------------------------------------------- the error list

  function Registered(faults: seq<Fault>, cap: nat, f: Fault): seq<Fault> {
    if |faults| < cap then faults + [f]
    else if cap == 0 then faults
    else faults[cap - 1 := Fault(ARG_ELIMIT, END, None)]
  }

  function RegisteredAll(faults: seq<Fault>, cap: nat, more: seq<Fault>): seq<Fault>
    decreases |more|
  {
    if more == [] then faults
    else Registered(RegisteredAll(faults, cap, more[..|more| - 1]), cap, more[|more| - 1])
  }

  /** Below the cap every error is kept in order; above it the first ones are, and the last
      place says that there were more. */
  lemma {:induction false} RegisteredAllMeans(faults: seq<Fault>, cap: nat, more: seq<Fault>)
    requires |faults| <= cap && cap > 0
    ensures RegisteredAll(faults, cap, more) ==
            if |faults + more| <= cap then faults + more
            else (faults + more)[..cap - 1] + [Fault(ARG_ELIMIT, END, None)]
    decreases |more|
  {
    if more == [] {
      assert faults + more == faults;
    } else {
      var init := more[..|more| - 1];
      RegisteredAllMeans(faults, cap, init);
      assert faults + more == faults + init + [more[|more| - 1]];
    }
  }

  // ---------------------------------------------------------------- matching

  predicate Scannable(e: Entry) {
    !e.tagged && e.scans
  }

  predicate Accepts(e: Entry, taken: Taken, arg: string) {
    Scannable(e) && e.scan(taken, Some(arg)) == 0
  }

  /** The table index that takes each argument; arguments beyond the list are not taken. */
  function Owners(table: seq<Entry>, got: seq<Taken>, args: seq<string>, t: nat): (owners: seq<nat>)
    requires |got| == |table|
    ensures |owners| <= |args|
    ensures forall i :: 0 <= i < |owners| ==> t <= owners[i] < |table|
    decreases |table| - t + |args|
  {
    if args == [] || t >= |table| then []
    else if Accepts(table[t], got[t], args[0]) then
      [t] + Owners(table, got[t := got[t] + [Some(args[0])]], args[1..], t)
    else Owners(table, got, args, t + 1)
  }

  /** What the entries hold after the first `n` arguments went to their owners. */
  function Given(got: seq<Taken>, args: seq<string>, owners: seq<nat>, n: nat): (g: seq<Taken>)
    requires n <= |owners| <= |args| && forall i :: 0 <= i < |owners| ==> owners[i] < |got|
    ensures |g| == |got|
  {
    if n == 0 then got
    else
      var g := Given(got, args, owners, n - 1);
      g[owners[n - 1] := g[owners[n - 1]] + [Some(args[n - 1])]]
  }

  function From(owners: seq<nat>, t: nat, i: nat): nat
    requires i <= |owners|
  {
    if i == 0 then t else owners[i - 1]
  }

  /** Each argument goes to the first entry, from the last owner on, that accepts it; all the
      entries from the last owner on refuse the argument that is left first. */
  ghost predicate Greedy(table: seq<Entry>, got: seq<Taken>, args: seq<string>, t: nat, owners: seq<nat>)
    requires |got| == |table|
  {
    && |owners| <= |args| && (forall i :: 0 <= i < |owners| ==> owners[i] < |table|)
    && AllTaken(table, got, args, t, owners)
    && (|owners| < |args| ==>
          RefusedBy(table, Given(got, args, owners, |owners|), args[|owners|], From(owners, t, |owners|), |table|))
  }

  ghost predicate RefusedBy(table: seq<Entry>, g: seq<Taken>, arg: string, low: nat, high: nat)
    requires |g| == |table| >= high
  {
    forall u :: low <= u < high ==> !Accepts(table[u], g[u], arg)
  }

  ghost predicate TakenBy(table: seq<Entry>, got: seq<Taken>, args: seq<string>, t: nat, owners: seq<nat>, i: nat)
    requires |got| == |table| && i < |owners| <= |args| && forall j :: 0 <= j < |owners| ==> owners[j] < |table|
  {
    var g := Given(got, args, owners, i);
    && From(owners, t, i) <= owners[i]
    && Accepts(table[owners[i]], g[owners[i]], args[i])
    && RefusedBy(table, g, args[i], From(owners, t, i), owners[i])
  }

  ghost predicate AllTaken(table: seq<Entry>, got: seq<Taken>, args: seq<string>, t: nat, owners: seq<nat>)
    requires |got| == |table| && |owners| <= |args| && forall j :: 0 <= j < |owners| ==> owners[j] < |table|
  {
    forall i :: 0 <= i < |owners| ==> TakenBy(table, got, args, t, owners, i)
  }

  lemma {:induction false} GivenShift(got: seq<Taken>, args: seq<string>, owners: seq<nat>, n: nat)
    requires 0 < n <= |owners| <= |args| && forall i :: 0 <= i < |owners| ==> owners[i] < |got|
    ensures Given(got, args, owners, n)
            == Given(got[owners[0] := got[owners[0]] + [Some(args[0])]], args[1..], owners[1..], n - 1)
  {
    if n > 1 {
      GivenShift(got, args, owners, n - 1);
    }
  }

  lemma {:induction false} TakenShift(table: seq<Entry>, got: seq<Taken>, args: seq<string>, t: nat, rest: seq<nat>, i: nat)
    requires |got| == |table| && t < |table| && args != [] && i < |rest| < |args|
    requires forall j :: 0 <= j < |rest| ==> rest[j] < |table|
    ensures var got' := got[t := got[t] + [Some(args[0])]];
            TakenBy(table, got, args, t, [t] + rest, i + 1) <==> TakenBy(table, got', args[1..], t, rest, i)
  {
    GivenShift(got, args, [t] + rest, i + 1);
    assert ([t] + rest)[1..] == rest;
  }

  /** When the present entry accepts the first argument, it must be its owner. */
  lemma {:induction false} GreedyTake(table: seq<Entry>, got: seq<Taken>, args: seq<string>, t: nat, rest: seq<nat>)
    requires |got| == |table| && t < |table| && args != [] && Accepts(table[t], got[t], args[0])
    ensures var got' := got[t := got[t] + [Some(args[0])]];
            Greedy(table, got, args, t, [t] + rest) <==> Greedy(table, got', args[1..], t, rest)
  {
    hide TakenBy, Accepts, Given, RefusedBy, AllTaken;
    var all, got' := [t] + rest, got[t := got[t] + [Some(args[0])]];
    assert forall i :: 0 <= i < |rest| ==> rest[i] == all[i + 1];
    if |all| <= |args| && forall j :: 0 <= j < |rest| ==> rest[j] < |table| {
      TakesFirst(table, got, args, t, rest);
      AllShift(table, got, args, t, rest);
      GivenShift(got, args, all, |all|);
      assert all[1..] == rest;
      assert |all| < |args| ==> args[|all|] == args[1..][|rest|];
      assert From(all, t, |all|) == From(rest, t, |rest|);
    } else if |all| <= |args| {
      var j :| 0 <= j < |rest| && rest[j] >= |table|;
      assert all[j + 1] >= |table|;
    }
  }

  /** All owners but the first are those of the arguments after the first. */
  lemma {:induction false} AllShift(table: seq<Entry>, got: seq<Taken>, args: seq<string>, t: nat, rest: seq<nat>)
    requires |got| == |table| && t < |table| && |rest| < |args|
    requires forall j :: 0 <= j < |rest| ==> rest[j] < |table|
    requires TakenBy(table, got, args, t, [t] + rest, 0)
    ensures var (all, got') := ([t] + rest, got[t := got[t] + [Some(args[0])]]);
            AllTaken(table, got, args, t, all) <==> AllTaken(table, got', args[1..], t, rest)
  {
    hide TakenBy;
    var all, got' := [t] + rest, got[t := got[t] + [Some(args[0])]];
    forall i | 0 <= i < |rest|
      ensures TakenBy(table, got, args, t, all, i + 1) <==> TakenBy(table, got', args[1..], t, rest, i)
    {
      TakenShift(table, got, args, t, rest, i);
    }
    assert forall i :: 0 < i < |all| ==>
      (TakenBy(table, got, args, t, all, i) <==> TakenBy(table, got', args[1..], t, rest, i - 1));
  }

  lemma TakesFirst(table: seq<Entry>, got: seq<Taken>, args: seq<string>, t: nat, rest: seq<nat>)
    requires |got| == |table| && t < |table| && |rest| < |args| && Accepts(table[t], got[t], args[0])
    requires forall j :: 0 <= j < |rest| ==> rest[j] < |table|
    ensures TakenBy(table, got, args, t, [t] + rest, 0)
  {
  }

  lemma {:induction false} OwnerFirst(table: seq<Entry>, got: seq<Taken>, args: seq<string>, t: nat, owners: seq<nat>)
    requires |got| == |table| && t < |table| && args != [] && Accepts(table[t], got[t], args[0])
    requires Greedy(table, got, args, t, owners)
    ensures owners != [] && owners == [t] + owners[1..]
  {
    if owners != [] {
      assert TakenBy(table, got, args, t, owners, 0);
    }
  }

  /** When it refuses the argument, the next entry is tried. */
  lemma {:induction false} GreedySkip(table: seq<Entry>, got: seq<Taken>, args: seq<string>, t: nat, next: nat, owners: seq<nat>)
    requires |got| == |table| && t < |table| && next == t + 1 && args != [] && !Accepts(table[t], got[t], args[0])
    ensures Greedy(table, got, args, t, owners) <==> Greedy(table, got, args, next, owners)
  {
    hide TakenBy, Accepts, RefusedBy;
    if |owners| <= |args| && forall j :: 0 <= j < |owners| ==> owners[j] < |table| {
      forall i | 0 <= i < |owners|
        ensures TakenBy(table, got, args, t, owners, i) <==> TakenBy(table, got, args, next, owners, i)
      {
        TakenSkip(table, got, args, t, owners, i);
      }
      if owners == [] {
        RefusedSkip(table, got, args[0], t, |table|);
        assert Given(got, args, owners, 0) == got;
      }
    }
  }

  lemma TakenSkip(table: seq<Entry>, got: seq<Taken>, args: seq<string>, t: nat, owners: seq<nat>, i: nat)
    requires |got| == |table| && t < |table| && args != [] && !Accepts(table[t], got[t], args[0])
    requires i < |owners| <= |args| && forall j :: 0 <= j < |owners| ==> owners[j] < |table|
    ensures TakenBy(table, got, args, t, owners, i) <==> TakenBy(table, got, args, t + 1, owners, i)
  {
    if i == 0 && owners[0] != t {
      RefusedSkip(table, got, args[0], t, owners[0]);
    }
  }

  lemma RefusedSkip(table: seq<Entry>, g: seq<Taken>, arg: string, t: nat, high: nat)
    requires |g| == |table| >= high && t < |table| && !Accepts(table[t], g[t], arg)
    ensures RefusedBy(table, g, arg, t, high) <==> RefusedBy(table, g, arg, t + 1, high)
  {
  }

  /** The greedy assignment exists, is unique, and is the one that is computed. */
  lemma {:induction false} GreedyExactly(table: seq<Entry>, got: seq<Taken>, args: seq<string>, t: nat, owners: seq<nat>)
    requires |got| == |table| && t <= |table|
    ensures Greedy(table, got, args, t, owners) <==> owners == Owners(table, got, args, t)
    decreases |table| - t + |args|
  {
    hide TakenBy, Accepts;
    if args == [] {
    } else if t == |table| {
      NoOwner(table, got, args, owners);
    } else if Accepts(table[t], got[t], args[0]) {
      var got' := got[t := got[t] + [Some(args[0])]];
      var rest := if owners == [] then [] else owners[1..];
      GreedyExactly(table, got', args[1..], t, rest);
      GreedyTake(table, got, args, t, rest);
      if Greedy(table, got, args, t, owners) {
        OwnerFirst(table, got, args, t, owners);
      }
    } else {
      GreedySkip(table, got, args, t, t + 1, owners);
      GreedyExactly(table, got, args, t + 1, owners);
    }
  }

  lemma NoOwner(table: seq<Entry>, got: seq<Taken>, args: seq<string>, owners: seq<nat>)
    requires |got| == |table|
    ensures Greedy(table, got, args, |table|, owners) <==> owners == []
  {
    if owners != [] && |owners| <= |args| && forall j :: 0 <= j < |owners| ==> owners[j] < |table| {
      assert !TakenBy(table, got, args, |table|, owners, 0);
    }
  }

  /** Owners come in table order. */
  lemma {:induction false} OwnersOrdered(table: seq<Entry>, got: seq<Taken>, args: seq<string>, t: nat, i: nat, j: nat)
    requires |got| == |table| && i <= j < |Owners(table, got, args, t)|
    ensures Owners(table, got, args, t)[i] <= Owners(table, got, args, t)[j]
    decreases |table| - t + |args|
  {
    if Accepts(table[t], got[t], args[0]) {
      if i > 0 {
        OwnersOrdered(table, got[t := got[t] + [Some(args[0])]], args[1..], t, i - 1, j - 1);
      }
    } else {
      OwnersOrdered(table, got, args, t + 1, i, j);
    }
  }

  /** The arguments among the first `n` that went to entry `t`, in order. */
  function Share(args: seq<string>, owners: seq<nat>, n: nat, t: nat): Taken
    requires n <= |owners| <= |args|
  {
    if n == 0 then []
    else Share(args, owners, n - 1, t) + if owners[n - 1] == t then [Some(args[n - 1])] else []
  }

  /** Every entry holds what it held before and the arguments it owns. */
  lemma {:induction false} GivenShares(got: seq<Taken>, args: seq<string>, owners: seq<nat>, n: nat, t: nat)
    requires n <= |owners| <= |args| && t < |got| && forall i :: 0 <= i < |owners| ==> owners[i] < |got|
    ensures Given(got, args, owners, n)[t] == got[t] + Share(args, owners, n, t)
  {
    if n > 0 {
      GivenShares(got, args, owners, n - 1, t);
    }
  }

  // ---------------------------------------------------------------- arguments that nobody took

  /** The last entry of a range that was tried. */
  function LastTried(table: seq<Entry>, low: nat, high: nat): (u: Option<nat>)
    requires high <= |table|
    ensures u.Some? ==> low <= u.value < high && Scannable(table[u.value])
    ensures forall v :: low <= v < high && Scannable(table[v]) ==> u.Some? && v <= u.value
  {
    if high <= low then None
    else if Scannable(table[high - 1]) then Some(high - 1)
    else LastTried(table, low, high - 1)
  }

  /** The tentative error is that of the last entry tried from `low` on, if one was. */
  ghost predicate LastKept(table: seq<Entry>, g: seq<Taken>, low: nat, tab: nat, arg: string, errorlast: int, last: nat, lastarg: string)
    requires |g| == |table| >= tab
  {
    match LastTried(table, low, tab)
    case None => errorlast == 0
    case Some(u) => last == u && lastarg == arg && errorlast != 0 && errorlast == table[u].scan(g[u], Some(arg))
  }

  lemma KeptSteps(table: seq<Entry>, g: seq<Taken>, low: nat, tab: nat, arg: string, errorlast: int, last: nat, lastarg: string)
    requires |g| == |table| > tab >= low && LastKept(table, g, low, tab, arg, errorlast, last, lastarg)
    ensures !Scannable(table[tab]) ==> LastKept(table, g, low, tab + 1, arg, errorlast, last, lastarg)
    ensures Scannable(table[tab]) && table[tab].scan(g[tab], Some(arg)) != 0 ==>
              LastKept(table, g, low, tab + 1, arg, table[tab].scan(g[tab], Some(arg)), tab, arg)
  {
  }

  lemma KeptNothing(table: seq<Entry>, g: seq<Taken>, tab: nat, arg: string, last: nat, lastarg: string)
    requires |g| == |table| >= tab
    ensures LastKept(table, g, tab, tab, arg, 0, last, lastarg)
  {
  }

  function Unmatched(args: seq<string>): (faults: seq<Fault>)
    ensures |faults| == |args|
  {
    seq(|args|, i requires 0 <= i < |args| => Fault(ARG_ENOMATCH, END, Some(args[i])))
  }

  /** The errors for the arguments left: for the first one that of the last entry tried. */
  function LeftFaults(table: seq<Entry>, g: seq<Taken>, args: seq<string>, owners: seq<nat>): seq<Fault>
    requires |g| == |table| && |owners| <= |args|
  {
    var k := |owners|;
    var u := LastTried(table, From(owners, 0, k), |table|);
    if k == |args| then []
    else if u.Some? then
      [Fault(table[u.value].scan(g[u.value], Some(args[k])), At(u.value), Some(args[k]))] + Unmatched(args[k + 1..])
    else Unmatched(args[k..])
  }

  lemma LeftShape(table: seq<Entry>, g: seq<Taken>, args: seq<string>, owners: seq<nat>)
    requires |g| == |table| && |owners| <= |args|
    ensures var (left, k) := (LeftFaults(table, g, args, owners), |owners|);
            && |left| == |args| - k
            && (forall i :: 0 < i < |left| ==> left[i] == Fault(ARG_ENOMATCH, END, Some(args[k + i])))
            && (k < |args| ==>
                  match LastTried(table, From(owners, 0, k), |table|)
                  case None => left[0] == Fault(ARG_ENOMATCH, END, Some(args[k]))
                  case Some(u) => left[0] == Fault(table[u].scan(g[u], Some(args[k])), At(u), Some(args[k])))
  {
  }

  /** Every argument is accepted by one entry or named by one error, in order. */
  lemma {:induction false} Accounted(table: seq<Entry>, got: seq<Taken>, args: seq<string>)
    requires |got| == |table|
    ensures var owners := Owners(table, got, args, 0);
            var faults := LeftFaults(table, Given(got, args, owners, |owners|), args, owners);
            && |owners| + |faults| == |args|
            && forall i :: 0 <= i < |faults| ==> faults[i].code != 0 && faults[i].arg == Some(args[|owners| + i])
  {
    var owners := Owners(table, got, args, 0);
    GreedyExactly(table, got, args, 0, owners);
  }

  // ---------------------------------------------------------------- the table

  /** An option that was found before the untagged arguments are looked at. */
  datatype Found =
    | LongOption(entry: nat, arg: Option<string>, text: string)
    | ShortOption(entry: nat, arg: Option<string>)
    | BadOption(code: int, arg: Option<string>)

  datatype State = State(got: seq<Taken>, faults: seq<Fault>)

  function Noted(st: State, cap: nat, f: Fault): State {
    st.(faults := Registered(st.faults, cap, f))
  }

  /** One scan: the argument is accepted, or its refusal is registered. */
  function Scanned(table: seq<Entry>, cap: nat, st: State, t: nat, arg: Option<string>): (s: State)
    requires t < |table| == |st.got|
    ensures |s.got| == |table|
  {
    if !table[t].scans then st
    else
      var code := table[t].scan(st.got[t], arg);
      if code != 0 then Noted(st, cap, Fault(code, At(t), arg))
      else st.(got := st.got[t := st.got[t] + [arg]])
  }

  predicate Lacks(table: seq<Entry>, f: Found)
    requires f.LongOption? ==> f.entry < |table|
  {
    f.LongOption? && f.arg == Some("") && table[f.entry].hasValue
  }

  predicate InTable(table: seq<Entry>, f: Found) {
    f.BadOption? || f.entry < |table|
  }

  /** A long option with an empty argument is an error, and is scanned all the same. */
  function Tagged(table: seq<Entry>, cap: nat, st: State, f: Found): (s: State)
    requires |st.got| == |table| && InTable(table, f)
    ensures |s.got| == |table|
  {
    if f.BadOption? then Noted(st, cap, Fault(f.code, END, f.arg))
    else
      var st' := if Lacks(table, f) then Noted(st, cap, Fault(ARG_EMISSARG, END, Some(f.text))) else st;
      Scanned(table, cap, st', f.entry, f.arg)
  }

  function AllTagged(table: seq<Entry>, cap: nat, found: seq<Found>): (s: State)
    requires forall i :: 0 <= i < |found| ==> InTable(table, found[i])
    ensures |s.got| == |table|
  {
    if found == [] then State(seq(|table|, _ => []), [])
    else Tagged(table, cap, AllTagged(table, cap, found[..|found| - 1]), found[|found| - 1])
  }

  function Untagged(table: seq<Entry>, cap: nat, st: State, args: seq<string>): (s: State)
    requires |st.got| == |table|
    ensures |s.got| == |table|
  {
    var owners := Owners(table, st.got, args, 0);
    var g := Given(st.got, args, owners, |owners|);
    State(g, RegisteredAll(st.faults, cap, LeftFaults(table, g, args, owners)))
  }

  /** The missing arguments of the first `n` entries. */
  function Missing(table: seq<Entry>, got: seq<Taken>, n: nat): seq<Fault>
    requires n <= |table| == |got|
  {
    if n == 0 then []
    else Missing(table, got, n - 1)
         + if table[n - 1].checks && |got[n - 1]| < table[n - 1].mincount then [Fault(table[n - 1].mincode, At(n - 1), None)] else []
  }

  /** The whole parse; counts are checked only when there is no error yet. */
  function Parsed(table: seq<Entry>, cap: nat, found: seq<Found>, args: seq<string>): State
    requires forall i :: 0 <= i < |found| ==> InTable(table, found[i])
  {
    var st := Untagged(table, cap, AllTagged(table, cap, found), args);
    if st.faults == [] then st.(faults := RegisteredAll([], cap, Missing(table, st.got, |table|))) else st
  }

  class ArgTable {
    const table: seq<Entry>
    const got: array<Taken>
    const errors: array<Fault>
    var count: nat

    ghost predicate Valid()
      reads this
    {
      && got.Length == |table| && count <= errors.Length && errors.Length > 0
      && forall t :: 0 <= t < |table| ==> Disciplined(table[t])
    }

    ghost function Now(): State
      reads this, got, errors
      requires Valid()
    {
      State(got[..], errors[..count])
    }

    constructor (table: seq<Entry>, cap: nat)
      requires cap > 0 && forall t :: 0 <= t < |table| ==> Disciplined(table[t])
      ensures Valid() && fresh(got) && fresh(errors) && this.table == table && errors.Length == cap
      ensures Now() == State(seq(|table|, _ => []), [])
    {
      this.table := table;
      got := new Taken[|table|](_ => []);
      errors := new Fault[cap](_ => Fault(0, END, None));
      count := 0;
    }

    method Register(f: Fault)
      requires Valid()
      modifies this`count, errors
      ensures Valid() && Now() == Noted(old(Now()), errors.Length, f)
    {
      if count < errors.Length {
        errors[count] := f;
        count := count + 1;
      } else {
        errors[errors.Length - 1] := Fault(ARG_ELIMIT, END, None);
      }
    }

    method Reset()
      requires Valid()
      modifies this`count, got
      ensures Valid() && Now() == State(seq(|table|, _ => []), [])
    {
      for t := 0 to |table|
        invariant forall u :: 0 <= u < t ==> got[u] == []
      {
        got[t] := [];
      }
      count := 0;
    }

    method Scan(t: nat, arg: Option<string>)
      requires Valid() && t < |table|
      modifies this`count, got, errors
      ensures Valid() && Now() == Scanned(table, errors.Length, old(Now()), t, arg)
    {
      if table[t].scans {
        var code := table[t].scan(got[t], arg);
        if code != 0 {
          Register(Fault(code, At(t), arg));
        } else {
          got[t] := got[t] + [arg];
        }
      }
    }

    method ParseTagged(found: seq<Found>)
      requires Valid() && Now() == State(seq(|table|, _ => []), [])
      requires forall i :: 0 <= i < |found| ==> InTable(table, found[i])
      modifies this`count, got, errors
      ensures Valid() && Now() == AllTagged(table, errors.Length, found)
    {
      for i := 0 to |found|
        invariant Valid() && Now() == AllTagged(table, errors.Length, found[..i])
      {
        assert found[..i + 1][..i] == found[..i];
        var f := found[i];
        if f.BadOption? {
          Register(Fault(f.code, END, f.arg));
        } else {
          if Lacks(table, f) {
            Register(Fault(ARG_EMISSARG, END, Some(f.text)));
          }
          Scan(f.entry, f.arg);
        }
      }
      assert found[..|found|] == found;
    }

    method ParseCheck()
      requires Valid() && count == 0
      modifies this`count, errors
      ensures Valid()
      ensures Now() == old(Now()).(faults := RegisteredAll([], errors.Length, Missing(table, got[..], |table|)))
    {
      ghost var missing := [];
      for t := 0 to |table|
        invariant Valid() && missing == Missing(table, got[..], t)
        invariant Now() == old(Now()).(faults := RegisteredAll([], errors.Length, missing))
      {
        if table[t].checks && |got[t]| < table[t].mincount {
          ghost var f := Fault(table[t].mincode, At(t), None);
          Register(Fault(table[t].mincode, At(t), None));
          assert (missing + [f])[..|missing|] == missing;
          missing := missing + [f];
        }
      }
    }

    /** Matching from `start` on: an entry that accepted an argument is tried again for the
        next one. The last refusal of the argument that is left is kept as a tentative error. */
    method Match(argv: seq<string>, start: nat, ghost owners: seq<nat>) returns (optind: nat, errorlast: int, last: nat, lastarg: string)
      requires Valid() && start <= |argv| && owners == Owners(table, got[..], argv[start..], 0)
      modifies got
      ensures Valid() && optind == start + |owners|
      ensures got[..] == Given(old(got[..]), argv[start..], owners, |owners|)
      ensures optind < |argv| ==> LastKept(table, got[..], From(owners, 0, |owners|), |table|, argv[optind], errorlast, last, lastarg)
      ensures optind == |argv| ==> errorlast == 0
    {
      hide Owners, LastKept, Disciplined, Given;
      ghost var args, before := argv[start..], got[..];
      ghost var n := 0;
      var tab := 0;
      optind, errorlast, last, lastarg := start, 0, 0, "";
      assert args[0..] == args && owners[0..] == owners;
      GivenNothing(before, args, owners);
      if start < |argv| { KeptNothing(table, got[..], 0, argv[start], last, lastarg); }
      while tab < |table|
        invariant tab <= |table| && start <= optind <= |argv| && n == optind - start <= |owners|
        invariant got[..] == Given(before, args, owners, n)
        invariant owners[n..] == Owners(table, got[..], args[n..], tab)
        invariant From(owners, 0, n) <= tab
        invariant optind < |argv| ==> LastKept(table, got[..], From(owners, 0, n), tab, args[n], errorlast, last, lastarg)
        invariant optind == |argv| ==> errorlast == 0
        decreases |table| - tab + |argv| - optind
      {
        OwnersStep(got[..], args[n..], tab);
        if optind >= |argv| {
          assert owners[n..] == [];
          return;
        }
        KeptSteps(table, got[..], From(owners, 0, n), tab, args[n], errorlast, last, lastarg);
        if table[tab].tagged || !table[tab].scans {
          tab := tab + 1;
          continue;
        }
        var errorcode := table[tab].scan(got[tab], Some(argv[optind]));
        if errorcode == 0 {
          AcceptStep(before, got[..], args, owners, n, tab);
          got[tab] := got[tab] + [Some(argv[optind])];
          optind, n := optind + 1, n + 1;
          errorlast := 0;
          if optind < |argv| { KeptNothing(table, got[..], tab, args[n], last, lastarg); }
        } else {
          tab, errorlast, last, lastarg := tab + 1, errorcode, tab, argv[optind];
        }
      }
      OwnersEnd(got[..], args[n..]);
      assert owners[n..] == [];
    }

    lemma GivenNothing(g: seq<Taken>, args: seq<string>, owners: seq<nat>)
      requires |owners| <= |args| && forall i :: 0 <= i < |owners| ==> owners[i] < |g|
      ensures Given(g, args, owners, 0) == g
    {
    }

    /** The present entry accepts, and is the next owner. */
    lemma AcceptStep(before: seq<Taken>, g: seq<Taken>, args: seq<string>, owners: seq<nat>, n: nat, t: nat)
      requires |before| == |g| == |table| && t < |table| && n < |args| && n <= |owners| <= |args|
      requires forall i :: 0 <= i < |owners| ==> owners[i] < |table|
      requires g == Given(before, args, owners, n) && owners[n..] == Owners(table, g, args[n..], t)
      requires Accepts(table[t], g[t], args[n])
      ensures n < |owners| && owners[n] == t
      ensures var g' := g[t := g[t] + [Some(args[n])]];
              g' == Given(before, args, owners, n + 1) && owners[n + 1..] == Owners(table, g', args[n + 1..], t)
    {
      hide Owners;
      OwnersStep(g, args[n..], t);
      assert owners[n..][1..] == owners[n + 1..] && args[n..][1..] == args[n + 1..];
    }

    lemma OwnersEnd(g: seq<Taken>, args: seq<string>)
      requires |g| == |table|
      ensures Owners(table, g, args, |table|) == []
    {
    }

    lemma OwnersStep(g: seq<Taken>, args: seq<string>, t: nat)
      requires |g| == |table| && t < |table|
      ensures var owners := Owners(table, g, args, t);
              if args == [] then owners == []
              else if Accepts(table[t], g[t], args[0]) then
                owners == [t] + Owners(table, g[t := g[t] + [Some(args[0])]], args[1..], t)
              else owners == Owners(table, g, args, t + 1)
    {
    }

    /** The first argument left gets the tentative error, if there is one; every other one is
        an argument that nothing matched. */
    method ParseUntagged(argv: seq<string>, start: nat) returns (optind: nat)
      requires Valid() && start <= |argv|
      modifies this`count, got, errors
      ensures Valid() && optind == |argv|
      ensures Now() == Untagged(table, errors.Length, old(Now()), argv[start..])
    {
      hide Registered, Owners, Given, LeftFaults, LastTried, Disciplined;
      ghost var args, before, faults := argv[start..], got[..], Now().faults;
      ghost var owners := Owners(table, before, args, 0);
      var errorlast, last, lastarg;
      optind, errorlast, last, lastarg := Match(argv, start, owners);
      ghost var g := got[..];
      ghost var left := LeftFaults(table, g, args, owners);
      ghost var k := |owners|;
      LeftShape(table, g, args, owners);
      assert Now() == State(g, RegisteredAll(faults, errors.Length, left[..0]));
      if errorlast != 0 {
        assert left[0] == Fault(errorlast, At(last), Some(lastarg)) && left[..1][..0] == left[..0];
        Register(Fault(errorlast, At(last), Some(lastarg)));
        optind := optind + 1;
      }
      while optind < |argv|
        invariant Valid() && start + k <= optind <= |argv|
        invariant Now() == State(g, RegisteredAll(faults, errors.Length, left[..optind - start - k]))
        invariant forall i :: optind <= i < |argv| ==> left[i - start - k] == Fault(ARG_ENOMATCH, END, Some(argv[i]))
      {
        ghost var m := optind - start - k;
        assert left[..m + 1][..m] == left[..m];
        Register(Fault(ARG_ENOMATCH, END, Some(argv[optind])));
        optind := optind + 1;
      }
      assert left[..optind - start - k] == left;
    }

    /** The whole parse: the options that were found, then the arguments, then, if there is no
        error, the counts. The result is the number of errors. */
    method Parse(found: seq<Found>, argv: seq<string>, start: nat) returns (errorcount: nat)
      requires Valid() && start <= |argv|
      requires forall i :: 0 <= i < |found| ==> InTable(table, found[i])
      modifies this`count, got, errors
      ensures Valid() && Now() == Parsed(table, errors.Length, found, argv[start..])
      ensures errorcount == |Now().faults|
    {
      Reset();
      ParseTagged(found);
      var _ := ParseUntagged(argv, start);
      if count == 0 {
        ParseCheck();
      }
      errorcount := count;
    }
  }

  // ---------------------------------------------------------------- a parse without errors

  ghost predicate WithinMax(table: seq<Entry>, got: seq<Taken>)
    requires |got| == |table|
  {
    forall t :: 0 <= t < |table| ==> |got[t]| <= table[t].maxcount
  }

  ghost predicate AllDisciplined(table: seq<Entry>) {
    forall t :: 0 <= t < |table| ==> Disciplined(table[t])
  }

  /** No entry ever holds more than its maximum. */
  lemma {:induction false} TaggedWithinMax(table: seq<Entry>, cap: nat, found: seq<Found>)
    requires AllDisciplined(table) && forall i :: 0 <= i < |found| ==> InTable(table, found[i])
    ensures WithinMax(table, AllTagged(table, cap, found).got)
  {
    if found != [] {
      TaggedWithinMax(table, cap, found[..|found| - 1]);
    }
  }

  lemma {:induction false} GivenWithinMax(table: seq<Entry>, got: seq<Taken>, args: seq<string>, n: nat)
    requires AllDisciplined(table) && |got| == |table| && WithinMax(table, got)
    requires n <= |Owners(table, got, args, 0)|
    ensures WithinMax(table, Given(got, args, Owners(table, got, args, 0), n))
  {
    if n > 0 {
      var owners := Owners(table, got, args, 0);
      GivenWithinMax(table, got, args, n - 1);
      GreedyExactly(table, got, args, 0, owners);
      assert TakenBy(table, got, args, 0, owners, n - 1);
    }
  }

  lemma {:induction false} MissingMeans(table: seq<Entry>, got: seq<Taken>, n: nat)
    requires n <= |table| == |got|
    ensures Missing(table, got, n) == [] <==>
            forall t :: 0 <= t < n && table[t].checks ==> table[t].mincount <= |got[t]|
  {
    if n > 0 {
      MissingMeans(table, got, n - 1);
    }
  }

  /** The option was read with an argument where it needs one, and its entry accepted it. */
  predicate Fine(table: seq<Entry>, st: State, f: Found)
    requires |st.got| == |table| && InTable(table, f)
  {
    !f.BadOption? && !Lacks(table, f) && (table[f.entry].scans ==> table[f.entry].scan(st.got[f.entry], f.arg) == 0)
  }

  lemma TaggedStep(table: seq<Entry>, cap: nat, st: State, f: Found)
    requires cap > 0 && |st.got| == |table| && InTable(table, f)
    ensures Tagged(table, cap, st, f).faults == [] <==> st.faults == [] && Fine(table, st, f)
  {
  }

  lemma {:induction false} TaggedClean(table: seq<Entry>, cap: nat, found: seq<Found>)
    requires cap > 0 && forall i :: 0 <= i < |found| ==> InTable(table, found[i])
    ensures AllTagged(table, cap, found).faults == [] <==> AllFine(table, cap, found)
  {
    hide Tagged, Fine, InTable;
    if found != [] {
      var n := |found| - 1;
      var init := found[..n];
      assert InTable(table, found[n]) && found == init + [found[n]];
      TaggedClean(table, cap, init);
      TaggedStep(table, cap, AllTagged(table, cap, init), found[n]);
      AllFineSnoc(table, cap, init, found[n]);
    }
  }

  /** Every option was fine when it came. */
  ghost predicate AllFine(table: seq<Entry>, cap: nat, found: seq<Found>)
    requires forall i :: 0 <= i < |found| ==> InTable(table, found[i])
  {
    forall i :: 0 <= i < |found| ==> Fine(table, AllTagged(table, cap, found[..i]), found[i])
  }

  lemma AllFineSnoc(table: seq<Entry>, cap: nat, init: seq<Found>, f: Found)
    requires InTable(table, f) && forall i :: 0 <= i < |init| ==> InTable(table, init[i])
    ensures AllFine(table, cap, init + [f]) <==> AllFine(table, cap, init) && Fine(table, AllTagged(table, cap, init), f)
  {
    hide Fine, AllTagged, InTable;
    var all := init + [f];
    assert all[..|init|] == init && all[|init|] == f;
    assert forall i :: 0 <= i < |init| ==> all[..i] == init[..i] && all[i] == init[i];
  }

  /** A parse reports no error exactly when every option was fine, every argument has an owner
      and no entry misses an argument; then every count lies within its bounds. */
  lemma {:induction false} ParsedClean(table: seq<Entry>, cap: nat, found: seq<Found>, args: seq<string>)
    requires cap > 0 && AllDisciplined(table) && forall i :: 0 <= i < |found| ==> InTable(table, found[i])
    ensures var before := AllTagged(table, cap, found);
            var end := Parsed(table, cap, found, args);
            && (end.faults == [] <==>
                  && AllFine(table, cap, found)
                  && |Owners(table, before.got, args, 0)| == |args|
                  && (forall t :: 0 <= t < |table| && table[t].checks ==> table[t].mincount <= |end.got[t]|))
            && (end.faults == [] ==>
                  forall t :: 0 <= t < |table| && table[t].checks ==> table[t].mincount <= |end.got[t]| <= table[t].maxcount)
  {
    hide AllFine, AllTagged;
    TaggedClean(table, cap, found);
    TaggedWithinMax(table, cap, found);
    var st := AllTagged(table, cap, found);
    var owners := Owners(table, st.got, args, 0);
    var g := Given(st.got, args, owners, |owners|);
    GivenWithinMax(table, st.got, args, |owners|);
    Accounted(table, st.got, args);
    RegisteredSome(st.faults, cap, LeftFaults(table, g, args, owners));
    RegisteredSome([], cap, Missing(table, g, |table|));
    MissingMeans(table, g, |table|);
  }

  lemma {:induction false} RegisteredSome(faults: seq<Fault>, cap: nat, more: seq<Fault>)
    requires cap > 0
    ensures RegisteredAll(faults, cap, more) == [] <==> faults == [] && more == []
    decreases |more|
  {
    if more != [] {
      RegisteredSome(faults, cap, more[..|more| - 1]);
    }
  }

  // ---------------------------------------------------------------- a parse, entry by entry

  predicate IsOptionOf(f: Found, t: nat) {
    !f.BadOption? && f.entry == t
  }

  /** What entry `t` took from the options, in the order in which they were found: each one
      that its scan accepted after those before it. */
  function OptionsTaken(table: seq<Entry>, found: seq<Found>, t: nat): Taken
    requires t < |table|
  {
    if found == [] then []
    else
      var (before, f) := (OptionsTaken(table, found[..|found| - 1], t), found[|found| - 1]);
      if IsOptionOf(f, t) && table[t].scans && table[t].scan(before, f.arg) == 0 then before + [f.arg] else before
  }

  /** The errors of one option: its own, a value that is missing, a refusal by its entry. */
  function FaultsOf(table: seq<Entry>, before: seq<Found>, f: Found): seq<Fault>
    requires InTable(table, f)
  {
    if f.BadOption? then [Fault(f.code, END, f.arg)]
    else
      var e := table[f.entry];
      (if f.LongOption? && f.arg == Some("") && e.hasValue then [Fault(ARG_EMISSARG, END, Some(f.text))] else [])
      + if e.scans && e.scan(OptionsTaken(table, before, f.entry), f.arg) != 0
        then [Fault(e.scan(OptionsTaken(table, before, f.entry), f.arg), At(f.entry), f.arg)] else []
  }

  function OptionFaults(table: seq<Entry>, found: seq<Found>): seq<Fault>
    requires forall i :: 0 <= i < |found| ==> InTable(table, found[i])
  {
    if found == [] then []
    else
      var init := found[..|found| - 1];
      OptionFaults(table, init) + FaultsOf(table, init, found[|found| - 1])
  }

  lemma {:induction false} RegisteredTwice(faults: seq<Fault>, cap: nat, a: seq<Fault>, b: seq<Fault>)
    ensures RegisteredAll(RegisteredAll(faults, cap, a), cap, b) == RegisteredAll(faults, cap, a + b)
    decreases |b|
  {
    if b == [] {
      assert a + b == a;
    } else {
      var n := |b| - 1;
      RegisteredTwice(faults, cap, a, b[..n]);
      assert (a + b)[..|a + b| - 1] == a + b[..n];
    }
  }

  lemma RegisteredOnce(faults: seq<Fault>, cap: nat, f: Fault)
    ensures RegisteredAll(faults, cap, [f]) == Registered(faults, cap, f)
    ensures RegisteredAll(faults, cap, []) == faults
  {
    assert [f][..0] == [];
  }

  /** The options are taken entry by entry, and all their errors are registered in order. */
  lemma {:induction false} OptionsMean(table: seq<Entry>, cap: nat, found: seq<Found>)
    requires forall i :: 0 <= i < |found| ==> InTable(table, found[i])
    ensures var st := AllTagged(table, cap, found);
            && (forall t :: 0 <= t < |table| ==> st.got[t] == OptionsTaken(table, found, t))
            && st.faults == RegisteredAll([], cap, OptionFaults(table, found))
  {
    hide Registered, InTable;
    if found != [] {
      var n := |found| - 1;
      var init, f := found[..n], found[n];
      assert InTable(table, f);
      OptionsMean(table, cap, init);
      TaggedMeans(table, cap, AllTagged(table, cap, init), init, f);
      RegisteredTwice([], cap, OptionFaults(table, init), FaultsOf(table, init, f));
    } else {
      RegisteredOnce([], cap, Fault(0, END, None));
    }
  }

  lemma {:induction false} TaggedMeans(table: seq<Entry>, cap: nat, st: State, before: seq<Found>, f: Found)
    requires |st.got| == |table| && InTable(table, f)
    requires forall t :: 0 <= t < |table| ==> st.got[t] == OptionsTaken(table, before, t)
    ensures var u := Tagged(table, cap, st, f);
            && u.faults == RegisteredAll(st.faults, cap, FaultsOf(table, before, f))
            && forall t :: 0 <= t < |table| ==>
                 u.got[t] == if IsOptionOf(f, t) && table[t].scans && table[t].scan(st.got[t], f.arg) == 0
                             then st.got[t] + [f.arg] else st.got[t]
  {
    hide Registered, RegisteredAll, OptionsTaken;
    if f.BadOption? {
      RegisteredOnce(st.faults, cap, Fault(f.code, END, f.arg));
    } else {
      var e := table[f.entry];
      var lacking := Fault(ARG_EMISSARG, END, if f.LongOption? then Some(f.text) else None);
      var refusal := Fault(e.scan(st.got[f.entry], f.arg), At(f.entry), f.arg);
      var missing := if Lacks(table, f) then [lacking] else [];
      RegisteredOnce(st.faults, cap, lacking);
      RegisteredOnce(RegisteredAll(st.faults, cap, missing), cap, refusal);
      RegisteredTwice(st.faults, cap, missing, [refusal]);
      assert missing + [] == missing;
    }
  }

  /** A fault for an entry that lacks an argument. */
  predicate Short(table: seq<Entry>, got: seq<Taken>, t: nat)
    requires t < |table| == |got|
  {
    table[t].checks && |got[t]| < table[t].mincount
  }

  /** Missing arguments are reported for exactly the entries that have too few, once each and in
      table order. */
  lemma {:induction false} MissingExactly(table: seq<Entry>, got: seq<Taken>, n: nat)
    requires n <= |table| == |got|
    ensures var faults := Missing(table, got, n);
            && (forall t :: 0 <= t < n && Short(table, got, t) ==> Fault(table[t].mincode, At(t), None) in faults)
            && (forall i :: 0 <= i < |faults| ==>
                  && faults[i].culprit.At? && faults[i].culprit.entry < n && Short(table, got, faults[i].culprit.entry)
                  && faults[i] == Fault(table[faults[i].culprit.entry].mincode, At(faults[i].culprit.entry), None))
            && forall i, j :: 0 <= i < j < |faults| ==> faults[i].culprit.entry < faults[j].culprit.entry
  {
    if n > 0 {
      MissingExactly(table, got, n - 1);
    }
  }

  /** The whole parse: each entry holds the options it took and then the arguments it owns; the
      errors are those of the options and of the arguments left, or else, if there are none,
      those of the counts; all registered in order. */
  lemma {:induction false} ParsedMeans(table: seq<Entry>, cap: nat, found: seq<Found>, args: seq<string>)
    requires cap > 0 && forall i :: 0 <= i < |found| ==> InTable(table, found[i])
    ensures var before := AllTagged(table, cap, found);
            var owners := Owners(table, before.got, args, 0);
            var end := Parsed(table, cap, found, args);
            var faults := OptionFaults(table, found) + LeftFaults(table, end.got, args, owners);
            && |end.got| == |table|
            && (forall t :: 0 <= t < |table| ==> end.got[t] == OptionsTaken(table, found, t) + Share(args, owners, |owners|, t))
            && end.faults == RegisteredAll([], cap, if faults == [] then Missing(table, end.got, |table|) else faults)
  {
    hide Registered, InTable, OptionsTaken, OptionFaults, LeftFaults, Owners, Share, Given, AllTagged, Missing;
    OptionsMean(table, cap, found);
    var before := AllTagged(table, cap, found);
    var owners := Owners(table, before.got, args, 0);
    var g := Given(before.got, args, owners, |owners|);
    forall t | 0 <= t < |table| ensures g[t] == before.got[t] + Share(args, owners, |owners|, t) {
      GivenShares(before.got, args, owners, |owners|, t);
    }
    var left := LeftFaults(table, g, args, owners);
    RegisteredTwice([], cap, OptionFaults(table, found), left);
    RegisteredSome([], cap, OptionFaults(table, found) + left);
  }
}
