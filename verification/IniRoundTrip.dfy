/**
 Loading a saved dictionary gives the dictionary back: every section and every key with its
 value, a key without a value as one with the empty value.
 */
module IniRoundTrip {
  import opened Options
  import opened IniText
  import opened Dictionaries
  import opened Ini

  /** The line fits the buffer with its line end. */
  ghost predicate Fits(line: string) {
    |line| <= ASCIILINESZ - 2 && '\n' !in line
  }

  ghost predicate PrintableSection(name: string) {
    CleanSection(name) && Fits(SectionLine(name))
  }

  /** The key belongs to a section of the dictionary, and its line gives it back. */
  ghost predicate PrintableKey(keys: seq<Option<string>>, k: string, v: Option<string>) {
    exists s :: Some(s) in keys && IsSection(s) && PrintableIn(k, v, s)
  }

  ghost predicate PrintableIn(k: string, v: Option<string>, s: string) {
    && InSection(k, s) && |k| <= ASCIILINESZ
    && CleanPair(KeyName(k, s), Text(v)) && Fits(KeyLine(KeyName(k, s), Text(v)))
  }

  ghost predicate Printable(keys: seq<Option<string>>, vals: seq<Option<string>>)
    requires |keys| == |vals|
  {
    forall i :: 0 <= i < |keys| && keys[i].Some? ==>
      if IsSection(keys[i].value) then PrintableSection(keys[i].value) else PrintableKey(keys, keys[i].value, vals[i])
  }

  /** What a file can hold of the entries: a section has no value, a key always has one. */
  function Normal(m: Entries): Entries {
    map k | k in m :: if IsSection(k) then None else Some(Text(m[k]))
  }

  // ---------------------------------------------------------------- reading printed lines

  /** The line is read alone and whole. */
  ghost predicate Whole(line: string) {
    Fits(line) && !Continues(TrimEnd(line))
  }

  ghost predicate AllWhole(lines: seq<string>) {
    forall i :: 0 <= i < |lines| ==> Whole(lines[i])
  }

  /** The lines that are parsed: an empty one is skipped, the others lose trailing blanks. */
  function Cut(lines: seq<string>): seq<string> {
    if lines == [] then []
    else (if lines[0] == "" then [] else [TrimEnd(lines[0])]) + Cut(lines[1..])
  }

  lemma {:induction false} ChunkOfLine(line: string, rest: string, room: nat)
    requires '\n' !in line && |line| < room
    ensures Chunk(line + "\n" + rest, room) == |line| + 1
  {
    if line == "" {
      assert (line + "\n" + rest)[0] == '\n';
    } else {
      assert (line + "\n" + rest)[1..] == line[1..] + "\n" + rest;
      ChunkOfLine(line[1..], rest, room - 1);
    }
  }

  /** A line that fits, after what was carried to it. */
  lemma {:induction false} ReadsNext(carried: string, line: string, rest: string)
    requires '\n' !in line && |carried| + |line| + 1 < ASCIILINESZ && carried + line != "" && |carried| < ASCIILINESZ - 2
    ensures var cut := TrimEnd(carried + line);
            ReadLines(carried, line + "\n" + rest)
            == if Continues(cut) then ReadLines(cut[..|cut| - 1], rest) else Prefixed([cut], ReadLines("", rest))
  {
    hide ReadLines, Chunk, Prefixed, TrimEnd;
    var text := line + "\n" + rest;
    ChunkOfLine(line, rest, ASCIILINESZ - 1 - |carried|);
    assert carried + text[..|line| + 1] == carried + line + "\n" && text[|line| + 1..] == rest;
    ReadStep(carried, text, carried + line + "\n", rest);
    TrimEndOf(carried + line, "\n");
  }

  lemma {:induction false} ReadsLine(line: string, rest: string)
    requires Whole(line)
    ensures ReadLines("", line + "\n" + rest)
            == if line == "" then ReadLines("", rest) else Prefixed([TrimEnd(line)], ReadLines("", rest))
  {
    if line == "" {
      ChunkOfLine(line, rest, ASCIILINESZ - 1);
      assert line + "\n" + rest == "\n" + rest && ("\n" + rest)[..1] == "\n" && ("\n" + rest)[1..] == rest;
    } else {
      assert "" + line == line;
      ReadsNext("", line, rest);
    }
  }

  /** A line that ends with a backslash, and maybe blanks, is joined to the next one. */
  lemma {:induction false} ReadsContinued(first: string, blanks: string, second: string, rest: string)
    requires '\n' !in first + blanks + second && AllSpaces(blanks)
    requires |first| + |blanks| + 2 < ASCIILINESZ && |first| + |second| + 1 < ASCIILINESZ
    requires first + second != "" && !Continues(TrimEnd(first + second))
    ensures ReadLines("", first + "\\" + blanks + "\n" + (second + "\n" + rest))
            == Prefixed([TrimEnd(first + second)], ReadLines("", rest))
  {
    hide ReadLines;
    var line := first + "\\" + blanks;
    NoLineEnd(first, blanks, second);
    assert "" + line == line;
    ReadsNext("", line, second + "\n" + rest);
    TrimEndOf(first + "\\", blanks);
    assert TrimEnd(first + "\\") == first + "\\" && (first + "\\")[..|first|] == first;
    ReadsNext(first, second, rest);
  }

  lemma NoLineEnd(first: string, blanks: string, second: string)
    requires '\n' !in first + blanks + second
    ensures '\n' !in first + "\\" + blanks && '\n' !in second
  {
    assert forall c :: c in first || c in blanks || c in second ==> c in first + blanks + second;
  }

  lemma {:induction false} ReadsLines(lines: seq<string>)
    requires AllWhole(lines)
    ensures ReadLines("", Join(lines)) == Read(Cut(lines), true)
  {
    if lines != [] {
      assert [] + Cut(lines[1..]) == Cut(lines[1..]);
      ReadsLine(lines[0], Join(lines[1..]));
      ReadsLines(lines[1..]);
    }
  }

  lemma {:induction false} CutAppend(a: seq<string>, b: seq<string>)
    ensures Cut(a + b) == Cut(a) + Cut(b)
  {
    if a == [] {
      assert a + b == b;
    } else {
      assert (a + b)[1..] == a[1..] + b;
      CutAppend(a[1..], b);
    }
  }

  lemma {:induction false} StoreAppend(st: Loaded, a: seq<string>, b: seq<string>)
    ensures StoreLines(st, a + b) == StoreLines(StoreLines(st, a), b)
    decreases |b|
  {
    if b == [] {
      assert a + b == a;
    } else {
      assert (a + b)[..|a + b| - 1] == a + b[..|b| - 1];
      StoreAppend(st, a, b[..|b| - 1]);
    }
  }

  /** The state after loading printed lines. */
  function Stored(st: Loaded, lines: seq<string>): Loaded {
    StoreLines(st, Cut(lines))
  }

  lemma StoredAppend(st: Loaded, a: seq<string>, b: seq<string>)
    ensures Stored(st, a + b) == Stored(Stored(st, a), b)
  {
    CutAppend(a, b);
    StoreAppend(st, Cut(a), Cut(b));
  }

  lemma CutOne(line: string)
    ensures Cut([line]) == if line == "" then [] else [TrimEnd(line)]
    ensures Cut([]) == []
  {
    hide TrimEnd;
    assert [line][1..] == [];
  }

  lemma StoreOne(st: Loaded, line: string)
    ensures StoreLines(st, [line]) == Store(st, ParseLine(line, st.section))
    ensures StoreLines(st, []) == st
  {
    hide ParseLine, Store;
    assert [line][..0] == [];
  }

  lemma StoredOne(st: Loaded, line: string)
    ensures Stored(st, [line]) == if line == "" then st else Store(st, ParseLine(TrimEnd(line), st.section))
    ensures Stored(st, []) == st
  {
    hide ParseLine, TrimEnd, Store, StoreLines, Cut;
    CutOne(line);
    StoreOne(st, TrimEnd(line));
  }

  // ---------------------------------------------------------------- what is stored

  ghost predicate Within(part: Entries, goal: Entries) {
    forall k :: k in part ==> k in goal && part[k] == goal[k]
  }

  /** Nothing is stored that the goal does not hold, and nothing is lost. */
  ghost predicate Progress(before: Loaded, after: Loaded, goal: Entries) {
    && after.errs == 0 && !after.overrun && Within(after.entries, goal) && Avoids(after.section, "]")
    && (forall k :: k in before.entries ==> k in after.entries)
  }

  ghost predicate KeysSuit(keys: seq<Option<string>>, vals: seq<Option<string>>, s: string, goal: Entries)
    requires |keys| == |vals|
  {
    forall i :: 0 <= i < |keys| && keys[i].Some? && InSection(keys[i].value, s) ==>
      PrintableIn(keys[i].value, vals[i], s) && keys[i].value in goal && goal[keys[i].value] == Some(Text(vals[i]))
  }

  ghost predicate KeysIn(keys: seq<Option<string>>, s: string, entries: Entries) {
    forall i :: 0 <= i < |keys| && keys[i].Some? && InSection(keys[i].value, s) ==> keys[i].value in entries
  }

  lemma {:induction false} KeyStored(st: Loaded, k: string, v: Option<string>, s: string, goal: Entries)
    requires st.section == s && Progress(st, st, goal) && PrintableIn(k, v, s) && k in goal && goal[k] == Some(Text(v))
    ensures var line := KeyLine(KeyName(k, s), Text(v));
            var after := Stored(st, [line]);
            Whole(line) && Progress(st, after, goal) && after.section == s && k in after.entries
  {
    hide ParseLine, KeyLine, TrimEnd, CleanPair, Cut;
    var line := KeyLine(KeyName(k, s), Text(v));
    PairSurvives(KeyName(k, s), Text(v), s);
    NotEmpty(KeyName(k, s), Text(v));
    StoredOne(st, line);
    assert s + ":" + KeyName(k, s) == k;
  }

  lemma NotEmpty(name: string, val: string)
    ensures KeyLine(name, val) != ""
  {
    assert |KeyLine(name, val)| >= 3;
  }

  lemma {:induction false} KeysStored(st: Loaded, keys: seq<Option<string>>, vals: seq<Option<string>>, s: string, goal: Entries)
    requires |keys| == |vals| && KeysSuit(keys, vals, s, goal)
    requires st.section == s && Progress(st, st, goal)
    ensures AllWhole(KeyLines(keys, vals, s))
    ensures var after := Stored(st, KeyLines(keys, vals, s));
            && Progress(st, after, goal) && after.section == s
            && KeysIn(keys, s, after.entries)
    decreases |keys|
  {
    hide Stored, KeyLine, Whole, PrintableIn, Store;
    if keys == [] {
      StoredOne(st, "");
    } else {
      var n := |keys| - 1;
      var lines := KeyLines(keys[..n], vals[..n], s);
      KeysStored(st, keys[..n], vals[..n], s, goal);
      if keys[n].Some? && InSection(keys[n].value, s) {
        var before := Stored(st, lines);
        KeyStored(before, keys[n].value, vals[n], s, goal);
        StoredAppend(st, lines, [KeyLine(KeyName(keys[n].value, s), Text(vals[n]))]);
      } else {
        assert lines + [] == lines;
      }
    }
  }

  lemma {:induction false} HeaderStored(st: Loaded, s: string, goal: Entries)
    requires Progress(st, st, goal) && PrintableSection(s) && s in goal && goal[s] == None
    ensures var after := Stored(st, ["", SectionLine(s)]);
            Progress(st, after, goal) && after.section == s && s in after.entries
    ensures AllWhole(["", SectionLine(s)])
  {
    hide ParseLine, TrimEnd, CleanSection, Cut, StoreLines;
    NotBracket(s);
    SectionSurvives(s, st.section);
    StoredOne(st, "");
    StoredOne(st, SectionLine(s));
    assert ["", SectionLine(s)] == [""] + [SectionLine(s)];
    StoredAppend(st, [""], [SectionLine(s)]);
    EmptyWhole();
  }

  lemma NotBracket(s: string)
    requires CleanSection(s)
    ensures s != "" && Avoids(s, "]")
  {
  }

  lemma EmptyWhole()
    ensures Whole("")
  {
  }

  lemma {:induction false} SectionStored(st: Loaded, keys: seq<Option<string>>, vals: seq<Option<string>>, s: string, goal: Entries)
    requires |keys| == |vals| && KeysSuit(keys, vals, s, goal)
    requires Progress(st, st, goal) && PrintableSection(s) && Some(s) in keys && s in goal && goal[s] == None
    ensures AllWhole(SectionLines(keys, vals, s))
    ensures var after := Stored(st, SectionLines(keys, vals, s));
            && Progress(st, after, goal) && s in after.entries
            && KeysIn(keys, s, after.entries)
  {
    hide Stored, KeyLines, Whole, CleanSection, SectionLine, KeysSuit, Store;
    KnownUnderItself(s);
    var header, lines := ["", SectionLine(s)], KeyLines(keys, vals, s);
    HeaderStored(st, s, goal);
    var opened' := Stored(st, header);
    KeysStored(opened', keys, vals, s, goal);
    StoredAppend(st, header, lines);
    StoredAppend(st, header + lines, [""]);
    StoredOne(Stored(opened', lines), "");
    EmptyWhole();
  }

  lemma KnownUnderItself(s: string)
    requires PrintableSection(s)
    ensures LowerCut(s) == s
  {
  }

  lemma {:induction false} SectionsStored(names: seq<string>, keys: seq<Option<string>>, vals: seq<Option<string>>, goal: Entries)
    requires |keys| == |vals|
    requires forall s :: s in names ==>
               KeysSuit(keys, vals, s, goal) && PrintableSection(s) && Some(s) in keys && s in goal && goal[s] == None
    ensures AllWhole(AllSections(names, keys, vals))
    ensures var after := Stored(START, AllSections(names, keys, vals));
            && Progress(START, after, goal)
            && forall s :: s in names ==> s in after.entries && KeysIn(keys, s, after.entries)
    decreases |names|
  {
    hide Stored, SectionLines, Whole, PrintableSection, KeysSuit;
    if names == [] {
      StoredOne(START, "");
    } else {
      var n := |names| - 1;
      SectionsStored(names[..n], keys, vals, goal);
      var lines := AllSections(names[..n], keys, vals);
      SectionStored(Stored(START, lines), keys, vals, names[n], goal);
      StoredAppend(START, lines, SectionLines(keys, vals, names[n]));
    }
  }

  // ---------------------------------------------------------------- the round trip

  lemma {:induction false} NamesAre(keys: seq<Option<string>>, s: string)
    ensures s in SectionNames(keys) <==> Some(s) in keys && IsSection(s)
    decreases |keys|
  {
    if keys != [] {
      var n := |keys| - 1;
      NamesAre(keys[..n], s);
      assert keys == keys[..n] + [keys[n]];
    }
  }

  /** A key is in one section only. */
  lemma OneSection(k: string, s: string, t: string)
    requires InSection(k, s) && InSection(k, t) && IsSection(s) && IsSection(t)
    ensures s == t
  {
    assert k[|s|] == (s + ":")[|s|] == ':' && k[|t|] == (t + ":")[|t|] == ':';
    assert forall i :: 0 <= i < |s| ==> k[i] == (s + ":")[i] == s[i];
    assert forall i :: 0 <= i < |t| ==> k[i] == (t + ":")[i] == t[i];
  }

  lemma {:induction false} SuitsSection(keys: seq<Option<string>>, vals: seq<Option<string>>, m: Entries, s: string)
    requires Lists(keys, vals, m) && Printable(keys, vals) && Some(s) in keys && IsSection(s)
    ensures KeysSuit(keys, vals, s, Normal(m)) && PrintableSection(s) && s in Normal(m) && Normal(m)[s] == None
  {
    hide PrintableIn, PrintableSection;
    forall i | 0 <= i < |keys| && keys[i].Some? && InSection(keys[i].value, s)
      ensures PrintableIn(keys[i].value, vals[i], s) && keys[i].value in Normal(m) && Normal(m)[keys[i].value] == Some(Text(vals[i]))
    {
      var k := keys[i].value;
      assert k[|s|] == (s + ":")[|s|] == ':';
      var t :| Some(t) in keys && IsSection(t) && PrintableIn(k, vals[i], t);
      PrintableInside(k, vals[i], t);
      OneSection(k, s, t);
    }
  }

  lemma PrintableInside(k: string, v: Option<string>, s: string)
    requires PrintableIn(k, v, s)
    ensures InSection(k, s)
  {
  }

  /** Every entry is reached: a section by its name, a key by its section. */
  lemma {:induction false} AllBack(keys: seq<Option<string>>, vals: seq<Option<string>>, m: Entries, back: Entries)
    requires Lists(keys, vals, m) && Printable(keys, vals) && Within(back, Normal(m))
    requires forall s :: s in SectionNames(keys) ==> s in back && KeysIn(keys, s, back)
    ensures back == Normal(m)
  {
    hide PrintableIn, PrintableSection, SectionNames;
    forall k | k in m ensures k in back {
      var i :| 0 <= i < |keys| && keys[i] == Some(k);
      if IsSection(k) {
        NamesAre(keys, k);
      } else {
        var s :| Some(s) in keys && IsSection(s) && PrintableIn(k, vals[i], s);
        PrintableInside(k, vals[i], s);
        NamesAre(keys, s);
      }
    }
  }

  /** Without a section there is no key either. */
  lemma {:induction false} NothingPrinted(keys: seq<Option<string>>, vals: seq<Option<string>>, m: Entries)
    requires Lists(keys, vals, m) && Printable(keys, vals) && SectionNames(keys) == []
    ensures m == map[] && DumpLines(keys, vals) == []
  {
    hide PrintableIn, PrintableSection, SectionNames;
    forall i | 0 <= i < |keys| ensures keys[i] == None {
      if keys[i].Some? {
        NamesAre(keys, keys[i].value);
        if !IsSection(keys[i].value) {
          var s :| Some(s) in keys && IsSection(s) && PrintableIn(keys[i].value, vals[i], s);
          NamesAre(keys, s);
        }
        assert false;
      }
    }
    if k :| k in m {
      assert false;
    }
    NoBareLines(keys, vals);
  }

  lemma {:induction false} NoBareLines(keys: seq<Option<string>>, vals: seq<Option<string>>)
    requires |keys| == |vals| && forall i :: 0 <= i < |keys| ==> keys[i] == None
    ensures BareLines(keys, vals) == []
    decreases |keys|
  {
    if keys != [] {
      NoBareLines(keys[..|keys| - 1], vals[..|keys| - 1]);
    }
  }

  /** A printed dictionary loads, and gives back every section and key with its value. */
  lemma {:induction false} RoundTrip(keys: seq<Option<string>>, vals: seq<Option<string>>, m: Entries)
    requires Lists(keys, vals, m) && Printable(keys, vals)
    ensures Load(Join(DumpLines(keys, vals))) == Gives(Normal(m))
  {
    hide Stored, Whole, PrintableIn, PrintableSection, KeysSuit, ReadLines, Printable;
    var names := SectionNames(keys);
    if names == [] {
      NothingPrinted(keys, vals, m);
      ReadsLines([]);
      return;
    }
    forall s | s in names
      ensures KeysSuit(keys, vals, s, Normal(m)) && PrintableSection(s) && Some(s) in keys && s in Normal(m) && Normal(m)[s] == None
    {
      NamesAre(keys, s);
      SuitsSection(keys, vals, m, s);
    }
    SectionsStored(names, keys, vals, Normal(m));
    var lines := AllSections(names, keys, vals);
    AllBack(keys, vals, m, Stored(START, lines).entries);
    StoredAppend(START, lines, [""]);
    StoredOne(Stored(START, lines), "");
    EmptyWhole();
    ReadsLines(lines + [""]);
    StoredMeans(lines + [""]);
  }

  lemma StoredMeans(lines: seq<string>)
    requires AllWhole(lines)
    ensures var st := Stored(START, lines);
            Load(Join(lines)) == if st.overrun then Overrun else if st.errs != 0 then Refused else Gives(st.entries)
  {
    ReadsLines(lines);
  }

  lemma {:induction false} NoneOverlong(keys: seq<Option<string>>, vals: seq<Option<string>>, s: string)
    requires |keys| == |vals| && Printable(keys, vals) && s in SectionNames(keys)
    ensures !Overlong(keys, s)
  {
    NamesAre(keys, s);
    var i :| 0 <= i < |keys| && keys[i] == Some(s);
    assert PrintableSection(s);
  }

  /** Saving and loading, for any two hash functions. */
  method SaveAndLoad(d: Dictionary, hashOf: string -> int) returns (back: Dictionary?)
    requires d.Valid()
    ensures Printable(d.key[..], d.val[..]) ==> back != null && back.Valid() && back.Entries() == Normal(d.Entries())
  {
    hide Dictionary.Valid, Dictionary.Content, Represented, Printable, DumpLines, Join, Load, Normal, Overlong, SectionNames;
    EntriesListed(d);
    var text := DumpIni(d);
    ghost var keys, vals, m := d.key[..], d.val[..], d.Entries();
    if Printable(keys, vals) {
      forall s | s in SectionNames(keys) ensures !Overlong(keys, s) {
        NoneOverlong(keys, vals, s);
      }
      RoundTrip(keys, vals, m);
    }
    if text == None { return null; }
    var overrun;
    back, overrun := LoadIni(text.value, hashOf);
  }

  // ---------------------------------------------------------------- two files with an error

  /** A file whose only storing line comes last loads in spite of an earlier syntax error; the
      same error fails the file when it comes last. */
  lemma ErrorForgotten()
    ensures Load("oops\nk = v\n") == Gives(map[":k" := Some("v")])
    ensures Load("k = v\noops\n") == Refused
  {
    hide ParseLine, ReadLines, TrimEnd, StoreLines, Whole;
    var bad, good := "oops", "k = v";
    TwoLinesWhole();
    ReadTwo(bad, good);
    ReadTwo(good, bad);
    assert bad + "\n" + good + "\n" == "oops\nk = v\n" && good + "\n" + bad + "\n" == "k = v\noops\n";
    StoreTwo(bad, good);
    StoreTwo(good, bad);
    Oops("");
    KeyAndValue("");
    assert "" + ":" + "k" == ":k";
  }

  lemma TwoLinesWhole()
    ensures Whole("oops") && TrimEnd("oops") == "oops" && Whole("k = v") && TrimEnd("k = v") == "k = v"
  {
    StripIdentity("oops");
    StripIdentity("k = v");
  }

  lemma StoreTwo(a: string, b: string)
    ensures StoreLines(START, [a, b])
            == var st := Store(START, ParseLine(a, "")); Store(st, ParseLine(b, st.section))
  {
    StoreNothing(START);
    StoreSnoc(START, [], a);
    StoreSnoc(START, [a], b);
    assert [] + [a] == [a] && [a] + [b] == [a, b];
  }

  lemma ReadTwo(a: string, b: string)
    requires Whole(a) && Whole(b) && a != "" && b != "" && TrimEnd(a) == a && TrimEnd(b) == b
    ensures ReadLines("", a + "\n" + b + "\n") == Read([a, b], true)
  {
    JoinTwo(a, b);
    ReadsLines([a, b]);
    assert [a, b][1..] == [b] && [b][1..] == [];
    assert Cut([b]) == [b] + Cut([]) == [b];
  }
}
