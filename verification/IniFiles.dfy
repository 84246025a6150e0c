/**
 What a whole ini file holds (src/etc/etc_iniparser.c, the line loop of `iniparser_load`),
 stated on its lines: the section in force, the entries, the overruns, and which files are
 not read to their end.
 */
module IniFiles {
  import opened Options
  import opened IniText
  import opened IniLines
  import opened Ini
  import opened IniRoundTrip

  // ---------------------------------------------------------------- entries

  /** The section in force at the n-th line: that of the last section line before it. */
  function SectionAt(lines: seq<string>, n: nat): string
    requires n <= |lines|
  {
    if n == 0 then ""
    else
      var line := ParseLine(lines[n - 1], SectionAt(lines, n - 1));
      if line.Section? then line.name else SectionAt(lines, n - 1)
  }

  /** The i-th line as it is understood where it stands. */
  function LineAt(lines: seq<string>, i: nat): Line
    requires i < |lines|
  {
    ParseLine(lines[i], SectionAt(lines, i))
  }

  /** The line stores an entry of this name. */
  predicate Names(lines: seq<string>, i: nat, name: string)
    requires i < |lines|
  {
    var line := LineAt(lines, i);
    || (line.Section? && line.name == name)
    || (line.Value? && SectionAt(lines, i) + ":" + line.key == name)
  }

  /** What it stores: a section has no value. */
  function Stores(lines: seq<string>, i: nat): Option<string>
    requires i < |lines|
  {
    var line := LineAt(lines, i);
    if line.Value? then Some(line.val) else None
  }

  /** The line's section and key do not fit the buffer that joins them. */
  predicate TooLong(lines: seq<string>, i: nat)
    requires i < |lines|
  {
    var line := LineAt(lines, i);
    line.Value? && |SectionAt(lines, i)| + |line.key| >= ASCIILINESZ
  }

  lemma {:induction false} SectionAtPrefix(lines: seq<string>, m: nat, n: nat)
    requires n <= m <= |lines|
    ensures SectionAt(lines[..m], n) == SectionAt(lines, n)
  {
    hide ParseLine;
    if n > 0 {
      SectionAtPrefix(lines, m, n - 1);
    }
  }

  lemma LineAtPrefix(lines: seq<string>, m: nat, i: nat)
    requires i < m <= |lines|
    ensures LineAt(lines[..m], i) == LineAt(lines, i) && SectionAt(lines[..m], i) == SectionAt(lines, i)
  {
    SectionAtPrefix(lines, m, i);
  }

  ghost predicate Named(lines: seq<string>, name: string) {
    exists i :: 0 <= i < |lines| && Names(lines, i, name)
  }

  /** No later line stores an entry of this name. */
  ghost predicate LastToName(lines: seq<string>, i: nat, name: string)
    requires i < |lines|
  {
    Names(lines, i, name) && forall j :: i < j < |lines| ==> !Names(lines, j, name)
  }

  ghost predicate SomeTooLong(lines: seq<string>) {
    exists i :: 0 <= i < |lines| && TooLong(lines, i)
  }

  /** The entries are those that the lines name, each with what the last line to name it
      stores. */
  ghost predicate Holds(lines: seq<string>, entries: Entries) {
    && (forall name :: name in entries <==> Named(lines, name))
    && (forall i, name :: 0 <= i < |lines| && LastToName(lines, i, name) ==>
          name in entries && entries[name] == Stores(lines, i))
  }

  lemma PrefixAt(lines: seq<string>, i: nat, name: string)
    requires i < |lines| - 1
    ensures var init := lines[..|lines| - 1];
            && (TooLong(lines, i) <==> TooLong(init, i)) && Stores(lines, i) == Stores(init, i)
            && (Names(lines, i, name) <==> Names(init, i, name))
  {
    hide ParseLine, SectionAt;
    LineAtPrefix(lines, |lines| - 1, i);
  }

  lemma PrefixNamed(lines: seq<string>, name: string)
    requires lines != []
    ensures Named(lines, name) <==> Named(lines[..|lines| - 1], name) || Names(lines, |lines| - 1, name)
  {
    hide Names, LineAt;
    var init := lines[..|lines| - 1];
    forall i | 0 <= i < |init| ensures Names(lines, i, name) <==> Names(init, i, name) {
      PrefixAt(lines, i, name);
    }
    if Named(init, name) {
      var i :| 0 <= i < |init| && Names(init, i, name);
      assert Names(lines, i, name);
    }
  }

  lemma PrefixLast(lines: seq<string>, i: nat, name: string)
    requires i < |lines| - 1
    ensures LastToName(lines, i, name) <==> LastToName(lines[..|lines| - 1], i, name) && !Names(lines, |lines| - 1, name)
  {
    hide Names, LineAt;
    var init := lines[..|lines| - 1];
    forall j | 0 <= j < |init| ensures Names(lines, j, name) <==> Names(init, j, name) {
      PrefixAt(lines, j, name);
    }
  }

  lemma PrefixTooLong(lines: seq<string>)
    requires lines != []
    ensures SomeTooLong(lines) <==> SomeTooLong(lines[..|lines| - 1]) || TooLong(lines, |lines| - 1)
  {
    hide TooLong, LineAt;
    var init := lines[..|lines| - 1];
    forall i | 0 <= i < |init| ensures TooLong(lines, i) <==> TooLong(init, i) {
      PrefixAt(lines, i, "");
    }
    if SomeTooLong(init) {
      var i :| 0 <= i < |init| && TooLong(init, i);
      assert TooLong(lines, i);
    }
  }

  /** What a file's lines amount to: the buffer is overrun exactly when some line is too long
      for it, and otherwise the entries are those of the lines, the last one counting. */
  lemma {:induction false} EntriesMean(lines: seq<string>)
    ensures var st := StoreLines(START, lines);
            && (st.overrun <==> SomeTooLong(lines))
            && (!st.overrun ==> st.section == SectionAt(lines, |lines|) && Holds(lines, st.entries))
    decreases |lines|
  {
    hide ParseLine, Names, Named, LastToName, SomeTooLong, Stores, TooLong;
    if lines == [] {
      StoreNothing(START);
      NothingNamed();
    } else {
      var n := |lines| - 1;
      var init := lines[..n];
      EntriesMean(init);
      PrefixTooLong(lines);
      SectionAtPrefix(lines, n, n);
      if !StoreLines(START, init).overrun {
        LastLineStores(lines, StoreLines(START, init));
        if !StoreLines(START, lines).overrun {
          StepsHold(lines, StoreLines(START, init).entries, StoreLines(START, lines).entries);
        }
      }
    }
  }

  lemma StepsHold(lines: seq<string>, before: Entries, after: Entries)
    requires lines != [] && Holds(lines[..|lines| - 1], before)
    requires forall name :: name in after <==> name in before || Names(lines, |lines| - 1, name)
    requires forall name :: name in after ==>
               after[name] == if Names(lines, |lines| - 1, name) then Stores(lines, |lines| - 1) else before[name]
    ensures Holds(lines, after)
  {
    hide Names, Named, LastToName, Stores, LineAt;
    var n := |lines| - 1;
    forall name ensures name in after <==> Named(lines, name) {
      PrefixNamed(lines, name);
    }
    forall i, name | 0 <= i < |lines| && LastToName(lines, i, name) ensures name in after && after[name] == Stores(lines, i) {
      ItIsNamed(lines, i, name);
      if i < n {
        PrefixLast(lines, i, name);
        PrefixAt(lines, i, name);
      }
    }
  }

  lemma ItIsNamed(lines: seq<string>, i: nat, name: string)
    requires i < |lines| && LastToName(lines, i, name)
    ensures Named(lines, name) && Names(lines, i, name)
  {
  }

  lemma NothingNamed()
    ensures !SomeTooLong([]) && forall name :: !Named([], name)
  {
  }

  lemma {:induction false} LastLineStores(lines: seq<string>, st: Loaded)
    requires lines != [] && !st.overrun && st.section == SectionAt(lines, |lines| - 1)
    ensures var n := |lines| - 1;
            var u := Store(st, LineAt(lines, n));
            && (u.overrun <==> TooLong(lines, n))
            && (!u.overrun ==>
                  && u.section == SectionAt(lines, |lines|)
                  && (forall name :: name in u.entries <==> name in st.entries || Names(lines, n, name))
                  && (forall name :: name in u.entries ==>
                        u.entries[name] == if Names(lines, n, name) then Stores(lines, n) else st.entries[name]))
  {
    hide ParseLine;
  }

  // ---------------------------------------------------------------- files

  /** A file gives exactly what its lines amount to, when they are all read, do not end in an
      error and fit the buffer. */
  lemma {:induction false} LoadMeans(text: string)
    ensures var read := ReadLines("", text);
            && (Load(text) == Overrun <==> SomeTooLong(read.lines))
            && (Load(text).Gives? ==> Holds(read.lines, Load(text).entries))
            && (Load(text).Gives? <==> read.whole && !EndsInError(read.lines) && !SomeTooLong(read.lines))
  {
    hide ReadLines, StoreLines, Holds, SomeTooLong, EndsInError;
    var lines := ReadLines("", text).lines;
    EntriesMean(lines);
    if !StoreLines(START, lines).overrun { ErrorsCount(lines); }
  }

  lemma NoneInside(text: string, n: nat)
    requires n <= |text| && '\n' !in text[..n]
    ensures forall i :: 0 <= i < n ==> text[i] != '\n'
  {
    assert forall i :: 0 <= i < n ==> text[i] == text[..n][i];
  }

  /** A line that, with what was carried to it, does not end where the buffer or the file does
      is not read, and nothing after it. */
  lemma {:induction false} NotReadOn(carried: string, text: string, n: nat)
    requires |carried| < ASCIILINESZ - 2 && n == (if |text| < ASCIILINESZ - 1 - |carried| then |text| else ASCIILINESZ - 1 - |carried|)
    requires '\n' !in text[..n] && |carried| + n > 1 && n > 0
    ensures ReadLines(carried, text) == Read([], false)
  {
    hide ReadLines, Chunk, TrimEnd, Prefixed;
    var c := Chunk(text, ASCIILINESZ - 1 - |carried|);
    NoneInside(text, n);
    assert c == n;
    var line := carried + text[..c];
    assert line[|line| - 1] == text[..n][n - 1];
    ReadStep(carried, text, line, text[c..]);
  }

  lemma {:induction false} StripBetween(front: string, text: string, back: string)
    requires AllSpaces(front) && AllSpaces(back) && (text == "" || !IsSpace(text[0]))
    ensures Strip(front + text + back) == TrimEnd(text)
  {
    hide IsSpace;
    assert front + text + back == front + (text + back);
    SkipSpacesOf(front, text + back);
    if text == "" {
      assert text + back == back + "";
      SkipSpacesOf(back, "");
    } else {
      assert (text + back)[0] == text[0];
      StartStays(text + back);
      TrimEndOf(text, back);
    }
  }

  lemma StartStays(s: string)
    requires s == "" || !IsSpace(s[0])
    ensures SkipSpaces(s) == s
  {
  }

  lemma {:induction false} StripCut(s: string)
    ensures Strip(TrimEnd(s)) == Strip(s)
  {
    hide IsSpace, SkipSpaces, TrimEnd, Strip, AllSpaces;
    var u := TrimEnd(s);
    TrimEndShape(s);
    SkipSpacesShape(u);
    var k := |u| - |SkipSpaces(u)|;
    var front, text, back := u[..k], u[k..], s[|u|..];
    assert u == front + text && s == front + text + back && front + text + "" == u;
    NoBlanks();
    StripBetween(front, text, back);
    StripBetween(front, text, "");
  }

  lemma NoBlanks()
    ensures AllSpaces("")
  {
  }

  lemma CutParses(line: string, section: string)
    ensures ParseLine(TrimEnd(line), section) == ParseLine(line, section)
  {
    hide Strip, TrimEnd;
    StripCut(line);
  }

  /** A file of one line. */
  lemma {:induction false} OneLine(line: string)
    requires Whole(line) && line != ""
    ensures Load(line + "\n") == match ParseLine(line, "")
            case Error => Refused
            case Section(s) => Gives(map[s := None])
            case Value(k, v) => if |k| >= ASCIILINESZ then Overrun else Gives(map[":" + k := Some(v)])
            case _ => Gives(map[])
  {
    hide ParseLine, ReadLines, TrimEnd, StoreLines;
    var cut := TrimEnd(line);
    ReadsLine(line, "");
    assert line + "\n" + "" == line + "\n";
    NothingRead("");
    PrefixedEnd([cut], true);
    StoreOne(START, cut);
    CutParses(line, "");
    assert "" + ":" == ":";
  }

  /** A file with one quoted value gives the text between the quotes. */
  lemma {:induction false} QuotedFile(key: string, pad: string, quote: char, text: string, tail: string)
    requires KeyStart(key) && AllSpaces(pad) && IsQuote(quote) && text != "" && quote !in text
    requires !(key[0] == '[' && EndsWith(tail, ']'))
    requires Whole(key + "=" + pad + ([quote] + text + ([quote] + tail)))
    ensures Load(key + "=" + pad + ([quote] + text + ([quote] + tail)) + "\n")
            == Gives(map[":" + Lower(Strip(key)) := Some(Inside(text, quote))])
  {
    hide ParseLine, Strip, Inside, TrimEnd, Load;
    QuotedValue(key, pad, quote, text, tail, "");
    OneLine(key + "=" + pad + ([quote] + text + ([quote] + tail)));
    Shorter(key);
  }

  // ---------------------------------------------------------------- a dictionary without sections

  /** The text that is printed for a value where there is no section. */
  function BareText(v: Option<string>): string {
    if v.Some? then v.value else "(null)"
  }

  function BareLine(k: string, v: Option<string>): string {
    k + " = " + BareText(v)
  }

  /** The entry's line gives its name and text back. */
  ghost predicate PrintableBare(k: string, v: Option<string>) {
    |k| < ASCIILINESZ && CleanPair(k, BareText(v)) && Fits(BareLine(k, v))
  }

  /** The same entries as keys of the section with the empty name. */
  function Shifted(m: Entries): Entries {
    map k | k in m :: Shift(k) := Some(BareText(m[k]))
  }

  function Shift(k: string): (name: string)
    ensures |name| == |k| + 1 && name[1..] == k
  {
    ":" + k
  }

  lemma {:induction false} BareParses(k: string, v: Option<string>)
    requires PrintableBare(k, v)
    ensures Whole(BareLine(k, v)) && ParseLine(TrimEnd(BareLine(k, v)), "") == Value(k, BareText(v))
  {
    hide ParseLine, Strip, Lower, TrimEnd, SkipSpaces, Scanned, Unquoted, CleanValue;
    var val := BareText(v);
    CleanTrims(val);
    StripPadded(k, " ");
    SpaceBlank(k);
    assert BareLine(k, v) == (k + " ") + "=" + " " + val;
    Assignment(k + " ", " ", val, "");
    CleanReadBack(val);
    CutParses(BareLine(k, v), "");
    TrimEndAppend(k + " = ", val);
    BareEnds(k, val);
  }

  lemma CleanTrims(val: string)
    requires CleanValue(val)
    ensures Trimmed(val) && SkipSpaces(val) == val && TrimEnd(val) == val
  {
    StripIdentity(val);
  }

  lemma SpaceBlank(k: string)
    requires CleanKey(k)
    ensures KeyStart(k + " ") && AllSpaces(" ")
  {
    assert (k + " ")[0] == k[0];
  }

  lemma BareEnds(k: string, val: string)
    requires CleanKey(k) && CleanValue(val)
    ensures !Continues(TrimEnd(k + " = " + val))
  {
    TrimEndAppend(k + " = ", val);
    StripIdentity(val);
    if val == "" {
      TrimEndOf(k + " =", " ");
      assert k + " =" + " " == k + " = ";
      StripIdentity("=");
      TrimEndAppend(k + " ", "=");
      assert k + " " + "=" == k + " =";
    }
  }

  ghost predicate AllBare(keys: seq<Option<string>>, vals: seq<Option<string>>)
    requires |keys| == |vals|
  {
    forall i :: 0 <= i < |keys| && keys[i].Some? ==> !IsSection(keys[i].value) && PrintableBare(keys[i].value, vals[i])
  }

  /** The goal holds what each entry's line stores. */
  ghost predicate BareSuit(keys: seq<Option<string>>, vals: seq<Option<string>>, goal: Entries)
    requires |keys| == |vals|
  {
    forall i :: 0 <= i < |keys| && keys[i].Some? ==>
      Shift(keys[i].value) in goal && goal[Shift(keys[i].value)] == Some(BareText(vals[i]))
  }

  ghost predicate BareIn(keys: seq<Option<string>>, entries: Entries) {
    forall i :: 0 <= i < |keys| && keys[i].Some? ==> Shift(keys[i].value) in entries
  }

  lemma {:induction false} BareOne(st: Loaded, k: string, v: Option<string>, goal: Entries)
    requires Progress(st, st, goal) && st.section == "" && PrintableBare(k, v)
    requires Shift(k) in goal && goal[Shift(k)] == Some(BareText(v))
    ensures var after := Stored(st, [BareLine(k, v)]);
            && Whole(BareLine(k, v)) && Progress(st, after, goal) && after.section == "" && Shift(k) in after.entries
  {
    hide PrintableBare, ParseLine, TrimEnd, Whole, BareLine, BareText, Stored;
    BareParses(k, v);
    ShortName(k, v);
    StoredOne(st, BareLine(k, v));
    assert "" + ":" + k == Shift(k);
  }

  lemma BarePrefix(keys: seq<Option<string>>, vals: seq<Option<string>>, goal: Entries)
    requires |keys| == |vals| > 0 && AllBare(keys, vals) && BareSuit(keys, vals, goal)
    ensures var n := |keys| - 1; AllBare(keys[..n], vals[..n]) && BareSuit(keys[..n], vals[..n], goal)
  {
    hide PrintableBare, Shift, BareText;
  }

  lemma BareInSnoc(keys: seq<Option<string>>, before: Entries, after: Entries)
    requires keys != [] && BareIn(keys[..|keys| - 1], before)
    requires forall k :: k in before ==> k in after
    requires var last := keys[|keys| - 1]; last.Some? ==> Shift(last.value) in after
    ensures BareIn(keys, after)
  {
    hide Shift;
    forall i | 0 <= i < |keys| && keys[i].Some? ensures Shift(keys[i].value) in after {
      if i < |keys| - 1 { assert keys[..|keys| - 1][i] == keys[i]; }
    }
  }

  /** The lines of a bare dictionary store what its entries stand for. */
  ghost predicate BareLoads(keys: seq<Option<string>>, lines: seq<string>, goal: Entries) {
    var after := Stored(START, lines);
    AllWhole(lines) && Progress(START, after, goal) && after.section == "" && BareIn(keys, after.entries)
  }

  lemma {:induction false} BareNext(keys: seq<Option<string>>, v: Option<string>, lines: seq<string>, goal: Entries)
    requires keys != [] && BareLoads(keys[..|keys| - 1], lines, goal)
    requires var last := keys[|keys| - 1];
             last.Some? ==> && PrintableBare(last.value, v) && Shift(last.value) in goal
                            && goal[Shift(last.value)] == Some(BareText(v))
    ensures var last := keys[|keys| - 1];
            BareLoads(keys, if last.Some? then lines + [BareLine(last.value, v)] else lines, goal)
  {
    hide Stored, Whole, PrintableBare, Shift, BareLine, BareText, BareIn;
    var st := Stored(START, lines);
    var last := keys[|keys| - 1];
    if last.Some? {
      var line := BareLine(last.value, v);
      BareOne(st, last.value, v, goal);
      StoredAppend(START, lines, [line]);
      BareInSnoc(keys, st.entries, Stored(START, lines + [line]).entries);
    } else {
      BareInSnoc(keys, st.entries, st.entries);
    }
  }

  lemma {:induction false} BareStored(keys: seq<Option<string>>, vals: seq<Option<string>>, goal: Entries)
    requires |keys| == |vals| && AllBare(keys, vals) && BareSuit(keys, vals, goal)
    ensures BareLoads(keys, BareLines(keys, vals), goal)
    decreases |keys|
  {
    hide Stored, PrintableBare, Shift, BareLine, BareText;
    if keys == [] {
      StoredOne(START, "");
    } else {
      hide BareLoads, BareLines;
      var n := |keys| - 1;
      BarePrefix(keys, vals, goal);
      BareStored(keys[..n], vals[..n], goal);
      BareLinesSnoc(keys, vals);
      BareNext(keys, vals[n], BareLines(keys[..n], vals[..n]), goal);
    }
  }

  lemma BareLinesSnoc(keys: seq<Option<string>>, vals: seq<Option<string>>)
    requires |keys| == |vals| > 0
    ensures var n := |keys| - 1;
            BareLines(keys, vals)
            == if keys[n].Some? then BareLines(keys[..n], vals[..n]) + [BareLine(keys[n].value, vals[n])] else BareLines(keys[..n], vals[..n])
  {
  }

  lemma ShortName(k: string, v: Option<string>)
    requires PrintableBare(k, v)
    ensures |k| < ASCIILINESZ && BareLine(k, v) != ""
  {
    assert |BareLine(k, v)| >= 3;
  }

  /** A dictionary without sections does not come back as it was: each of its entries comes back
      as a key of the section with the empty name. */
  lemma {:induction false} BareRoundTrip(keys: seq<Option<string>>, vals: seq<Option<string>>, m: Entries)
    requires Lists(keys, vals, m) && AllBare(keys, vals)
    ensures DumpLines(keys, vals) == BareLines(keys, vals)
    ensures Load(Join(DumpLines(keys, vals))) == Gives(Shifted(m))
  {
    hide Stored, Whole, PrintableBare, Load, Shifted, BareLines, Shift, BareText;
    NoNames(keys, vals);
    forall i | 0 <= i < |keys| && keys[i].Some?
      ensures Shift(keys[i].value) in Shifted(m) && Shifted(m)[Shift(keys[i].value)] == Some(BareText(vals[i]))
    {
      ShiftedAt(m, keys[i].value);
    }
    BareStored(keys, vals, Shifted(m));
    StoredMeans(BareLines(keys, vals));
    AllShifted(keys, vals, m, Stored(START, BareLines(keys, vals)).entries);
  }

  lemma {:induction false} AllShifted(keys: seq<Option<string>>, vals: seq<Option<string>>, m: Entries, back: Entries)
    requires Lists(keys, vals, m) && Within(back, Shifted(m)) && BareIn(keys, back)
    ensures back == Shifted(m)
  {
    hide Shift, BareText;
    forall name | name in Shifted(m) ensures name in back {
      var k :| k in m && Shift(k) == name;
      var i :| 0 <= i < |keys| && keys[i] == Some(k);
    }
  }

  lemma ShiftedAt(m: Entries, k: string)
    requires k in m
    ensures Shift(k) in Shifted(m) && Shifted(m)[Shift(k)] == Some(BareText(m[k]))
  {
  }

  lemma {:induction false} NoNames(keys: seq<Option<string>>, vals: seq<Option<string>>)
    requires |keys| == |vals| && AllBare(keys, vals)
    ensures SectionNames(keys) == []
    decreases |keys|
  {
    hide PrintableBare;
    if keys != [] {
      NoNames(keys[..|keys| - 1], vals[..|keys| - 1]);
    }
  }

  // ---------------------------------------------------------------- printed text

  /** A section is printed as its name in square brackets, between an empty line and its keys,
      and another empty line. */
  lemma SectionText(keys: seq<Option<string>>, vals: seq<Option<string>>, s: string)
    requires |keys| == |vals|
    ensures Join(SectionLines(keys, vals, s))
            == if Some(LowerCut(s)) in keys then "\n[" + s + "]\n" + Join(KeyLines(keys, vals, s)) + "\n" else ""
  {
    hide Join, KeyLines, LowerCut;
    JoinNothing();
    var head, lines := "[" + s + "]", KeyLines(keys, vals, s);
    JoinTwo("", head);
    JoinAppend(["", head], lines);
    JoinSnoc(["", head] + lines, "");
    assert Join(["", head]) == "\n[" + s + "]\n" by { Framed(s); }
    assert Join(["", head] + lines) + "" + "\n" == Join(["", head]) + Join(lines) + "\n";
  }

  lemma Framed(s: string)
    ensures "" + "\n" + ("[" + s + "]") + "\n" == "\n[" + s + "]\n"
  {
  }

  /** A name of up to 30 characters is printed in a column of 30, a longer one as it is. */
  lemma KeyLineColumns(name: string, val: string)
    ensures |name| <= 30 ==>
              var line := KeyLine(name, val);
              |line| == 33 + |val| && name <= line && (forall i :: |name| <= i < 30 ==> line[i] == ' ')
              && line[30..33] == " = " && line[33..] == val
    ensures |name| > 30 ==> KeyLine(name, val) == name + " = " + val
  {
    assert Blanks(0) == "";
    assert |name| > 30 ==> Pad30(name) == name;
  }

  /** An entry belongs to a section when its name is the section's, a colon and the key's. */
  lemma InSectionMeans(k: string, s: string, name: string)
    ensures k == s + ":" + name <==> InSection(k, s) && KeyName(k, s) == name
  {
    if k == s + ":" + name {
      assert k[..|s| + 1] == s + ":" && k[|s| + 1..] == name;
    }
    if InSection(k, s) {
      assert k == k[..|s| + 1] + k[|s| + 1..];
    }
  }

  ghost predicate SomePrints(keys: seq<Option<string>>, vals: seq<Option<string>>, s: string, line: string)
    requires |keys| == |vals|
  {
    exists i :: 0 <= i < |keys| && Prints(keys[i], vals[i], s, line)
  }

  lemma SomePrintsSnoc(keys: seq<Option<string>>, vals: seq<Option<string>>, s: string, line: string)
    requires |keys| == |vals| > 0
    ensures var n := |keys| - 1;
            SomePrints(keys, vals, s, line) <==> SomePrints(keys[..n], vals[..n], s, line) || Prints(keys[n], vals[n], s, line)
  {
    hide Prints;
    var n := |keys| - 1;
    if SomePrints(keys[..n], vals[..n], s, line) {
      var i :| 0 <= i < n && Prints(keys[..n][i], vals[..n][i], s, line);
      assert Prints(keys[i], vals[i], s, line);
    }
    if SomePrints(keys, vals, s, line) && !Prints(keys[n], vals[n], s, line) {
      var i :| 0 <= i < |keys| && Prints(keys[i], vals[i], s, line);
      assert Prints(keys[..n][i], vals[..n][i], s, line);
    }
  }

  /** The printed keys of a section are those of its entries, each with its value's text. */
  lemma {:induction false} KeyLinesExactly(keys: seq<Option<string>>, vals: seq<Option<string>>, s: string, line: string)
    requires |keys| == |vals|
    ensures line in KeyLines(keys, vals, s) <==> SomePrints(keys, vals, s, line)
    decreases |keys|
  {
    if keys != [] {
      hide Prints, KeyLine, SomePrints, InSection, KeyName;
      var n := |keys| - 1;
      KeyLinesExactly(keys[..n], vals[..n], s, line);
      PrintsLine(keys[n], vals[n], s, line);
      SomePrintsSnoc(keys, vals, s, line);
    }
  }

  ghost predicate Prints(key: Option<string>, val: Option<string>, s: string, line: string) {
    exists name :: key == Some(s + ":" + name) && line == KeyLine(name, Text(val))
  }

  lemma PrintsLine(key: Option<string>, val: Option<string>, s: string, line: string)
    ensures Prints(key, val, s, line) <==>
            key.Some? && InSection(key.value, s) && line == KeyLine(KeyName(key.value, s), Text(val))
  {
    hide KeyLine;
    if key.Some? && InSection(key.value, s) {
      InSectionMeans(key.value, s, KeyName(key.value, s));
    }
    if Prints(key, val, s, line) {
      var name :| key == Some(s + ":" + name) && line == KeyLine(name, Text(val));
      InSectionMeans(key.value, s, name);
    }
  }

  /** The sections are listed in slot order: each one after those in the slots before it. */
  lemma {:induction false} NameAt(keys: seq<Option<string>>, i: nat)
    requires i < |keys| && keys[i].Some? && IsSection(keys[i].value)
    ensures var n := |SectionNames(keys[..i])|;
            n < |SectionNames(keys)| && SectionNames(keys)[n] == keys[i].value
  {
    NamesGrow(keys, i + 1);
    assert keys[..i + 1][..i] == keys[..i];
  }

  /** A name is looked up in lower case, by its first 1024 characters. */
  lemma LowerCutMeans(s: string)
    ensures |LowerCut(s)| == if |s| > 1024 then 1024 else |s|
    ensures forall i :: 0 <= i < |LowerCut(s)| ==> LowerCut(s)[i] == LowerChar(s[i])
  {
  }

  /** A line of its own may have 1022 characters, and no more. */
  lemma {:induction false} LineLimit(line: string)
    requires '\n' !in line && line != "" && !Continues(TrimEnd(line))
    ensures ReadLines("", line + "\n").whole <==> |line| <= 1022
  {
    hide ReadLines, TrimEnd;
    if |line| <= 1022 {
      ReadsNext("", line, "");
      assert "" + line == line && line + "\n" + "" == line + "\n";
      NothingRead("");
    } else {
      assert (line + "\n")[..1023] == line[..1023];
      NotReadOn("", line + "\n", 1023);
    }
  }
}
