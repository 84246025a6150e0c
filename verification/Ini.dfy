/**
 Saving a dictionary as an ini file and loading an ini file into a dictionary
 (src/etc/etc_iniparser.c). A file is a character sequence.

 A dictionary holds a section as an entry named after it, and a key of a section as an
 entry named "section:key".
 */
module Ini {
  import opened Options
  import opened IniText
  import opened Dictionaries

  const ASCIILINESZ := 1024

  type Entries = map<string, Option<string>>

  // ---------------------------------------------------------------- buffers

  /** Lower-casing through a buffer that cuts a long string. */
  function LowerCut(s: string): string {
    Lower(if |s| > ASCIILINESZ then s[..ASCIILINESZ] else s)
  }

  method Strlwc(s: string) returns (l: string)
    ensures l == LowerCut(s)
  {
    var i := 0;
    l := "";
    while i < |s| && i < ASCIILINESZ
      invariant |l| == i <= |s| && i <= ASCIILINESZ
      invariant forall j :: 0 <= j < i ==> l[j] == LowerChar(s[j])
    {
      l := l + [LowerChar(s[i])];
      i := i + 1;
    }
    assert l == LowerCut(s);
  }

  method Strstrip(s: string) returns (l: string)
    ensures l == Strip(s)
  {
    var i := 0;
    while i < |s| && IsSpace(s[i])
      invariant i <= |s| && SkipSpaces(s[i..]) == SkipSpaces(s)
    {
      assert s[i..][1..] == s[i + 1..];
      i := i + 1;
    }
    l := CutEnd(s[i..]);
  }

  /** Drops the blanks and line ends at the end of a line. */
  method CutEnd(s: string) returns (l: string)
    ensures l == TrimEnd(s)
  {
    var last := |s|;
    assert s[..last] == s;
    while last > 0 && IsSpace(s[last - 1])
      invariant 0 <= last <= |s| && TrimEnd(s[..last]) == TrimEnd(s)
    {
      assert s[..last][..last - 1] == s[..last - 1];
      last := last - 1;
    }
    l := s[..last];
  }

  /** One line of the file; the buffers hold 1024 characters. */
  method ScanLine(input: string, present: string) returns (status: Line)
    requires |input| <= ASCIILINESZ && |present| <= ASCIILINESZ
    ensures status == ParseLine(input, present)
  {
    hide Span, Strip, Scanned, Lower;
    var line := Strstrip(input);
    Shorter(input);
    if line == "" {
      status := Empty;
    } else if line[0] == '#' || line[0] == ';' {
      status := Comment;
    } else if line[0] == '[' && line[|line| - 1] == ']' {
      var n := Span(line[1..], "]", false);
      var name := Strstrip(if n == 0 then present else line[1..n + 1]);
      Shorter(if n == 0 then present else line[1..n + 1]);
      name := Strlwc(name);
      status := Section(name);
    } else {
      var text := ValueText(line);
      if text == None { return Error; }
      var key := Strstrip(KeyText(line));
      Shorter(KeyText(line));
      key := Strlwc(key);
      var value := "";
      if Scanned(text.value).Some? {
        value := Strstrip(Scanned(text.value).value);
        if value == "\"\"" || value == "''" { value := ""; }
      }
      status := Value(key, value);
    }
  }

  // ---------------------------------------------------------------- saving

  predicate IsSection(k: string) {
    ':' !in k
  }

  /** The entry's name starts with the section and a colon. */
  predicate InSection(k: string, s: string) {
    |k| > |s| && k[..|s| + 1] == s + ":"
  }

  function KeyName(k: string, s: string): string
    requires InSection(k, s)
  {
    k[|s| + 1..]
  }

  function Text(v: Option<string>): string {
    if v.Some? then v.value else ""
  }

  /** The section names in slot order. */
  function SectionNames(keys: seq<Option<string>>): seq<string> {
    if keys == [] then []
    else
      var last := keys[|keys| - 1];
      SectionNames(keys[..|keys| - 1]) + if last.Some? && IsSection(last.value) then [last.value] else []
  }

  /** The lines of the keys of one section. */
  function KeyLines(keys: seq<Option<string>>, vals: seq<Option<string>>, s: string): seq<string>
    requires |keys| == |vals|
  {
    if keys == [] then []
    else
      var n := |keys| - 1;
      KeyLines(keys[..n], vals[..n], s)
      + if keys[n].Some? && InSection(keys[n].value, s) then [KeyLine(KeyName(keys[n].value, s), Text(vals[n]))] else []
  }

  /** A section that is found (under its lower-case name) is printed between empty lines. */
  function SectionLines(keys: seq<Option<string>>, vals: seq<Option<string>>, s: string): seq<string>
    requires |keys| == |vals|
  {
    if Some(LowerCut(s)) in keys then ["", SectionLine(s)] + KeyLines(keys, vals, s) + [""] else []
  }

  function AllSections(names: seq<string>, keys: seq<Option<string>>, vals: seq<Option<string>>): seq<string>
    requires |keys| == |vals|
  {
    if names == [] then []
    else AllSections(names[..|names| - 1], keys, vals) + SectionLines(keys, vals, names[|names| - 1])
  }

  /** Without a section every entry is printed as it is. */
  function BareLines(keys: seq<Option<string>>, vals: seq<Option<string>>): seq<string>
    requires |keys| == |vals|
  {
    if keys == [] then []
    else
      var n := |keys| - 1;
      BareLines(keys[..n], vals[..n])
      + if keys[n].Some? then [keys[n].value + " = " + if vals[n].Some? then vals[n].value else "(null)"] else []
  }

  function DumpLines(keys: seq<Option<string>>, vals: seq<Option<string>>): seq<string>
    requires |keys| == |vals|
  {
    if SectionNames(keys) == [] then BareLines(keys, vals)
    else AllSections(SectionNames(keys), keys, vals) + [""]
  }

  /** The lines as text. */
  function Join(lines: seq<string>): string {
    if lines == [] then "" else lines[0] + "\n" + Join(lines[1..])
  }

  lemma {:induction false} JoinAppend(a: seq<string>, b: seq<string>)
    ensures Join(a + b) == Join(a) + Join(b)
  {
    if a == [] {
      assert a + b == b;
    } else {
      assert (a + b)[1..] == a[1..] + b;
      JoinAppend(a[1..], b);
    }
  }

  /** The slots hold exactly the entries of the map. */
  ghost predicate Lists(keys: seq<Option<string>>, vals: seq<Option<string>>, m: Entries) {
    && |keys| == |vals|
    && (forall i :: 0 <= i < |keys| && keys[i].Some? ==> keys[i].value in m && m[keys[i].value] == vals[i])
    && (forall k :: k in m ==> Some(k) in keys)
  }

  lemma Sized(d: Dictionary)
    requires d.Valid()
    ensures d.key.Length == d.val.Length == d.size >= 0
  {
  }

  lemma EntriesListed(d: Dictionary)
    requires d.Valid()
    ensures Lists(d.key[..], d.val[..], d.Entries())
  {
    forall k | k in d.Entries() ensures Some(k) in d.key[..] {
      assert d.Content().keys[d.slot[k]] == Some(k);
    }
  }

  method GetNsec(d: Dictionary) returns (nsec: nat)
    requires d.Valid()
    ensures nsec == |SectionNames(d.key[..])|
  {
    hide Dictionary.Valid, Dictionary.Content, Represented;
    Sized(d);
    nsec := 0;
    for i := 0 to d.size
      invariant nsec == |SectionNames(d.key[..i])|
    {
      assert d.key[..i + 1][..i] == d.key[..i];
      if d.key[i] != None && IsSection(d.key[i].value) {
        nsec := nsec + 1;
      }
    }
    assert d.key[..d.size] == d.key[..];
  }

  /** The name of the n-th section; a number without a section gives none. */
  method GetSecname(d: Dictionary, n: int) returns (name: Option<string>)
    requires d.Valid()
    ensures name == if 0 <= n < |SectionNames(d.key[..])| then Some(SectionNames(d.key[..])[n]) else None
  {
    hide Dictionary.Valid, Dictionary.Content, Represented;
    Sized(d);
    if n < 0 { return None; }
    var found := 0;
    for i := 0 to d.size
      invariant found == |SectionNames(d.key[..i])| <= n
    {
      assert d.key[..i + 1][..i] == d.key[..i];
      if d.key[i] != None && IsSection(d.key[i].value) {
        found := found + 1;
        if found > n {
          NamesGrow(d.key[..], i + 1);
          return d.key[i];
        }
      }
    }
    assert d.key[..d.size] == d.key[..];
    name := None;
  }

  lemma {:induction false} NamesGrow(keys: seq<Option<string>>, i: nat)
    requires i <= |keys|
    ensures SectionNames(keys[..i]) <= SectionNames(keys)
    decreases |keys|
  {
    if i == |keys| {
      assert keys[..i] == keys;
    } else {
      var n := |keys| - 1;
      NamesGrow(keys[..n], i);
      assert keys[..n][..i] == keys[..i];
    }
  }

  /** The section is found, and its name with a colon overruns the buffer that it is put in. */
  predicate Overlong(keys: seq<Option<string>>, s: string) {
    Some(LowerCut(s)) in keys && |s| + 1 > ASCIILINESZ
  }

  /** The text of a section, or none where the source overruns its buffer. */
  method DumpSection(d: Dictionary, s: string) returns (out: Option<string>)
    requires d.Valid()
    ensures out == if Overlong(d.key[..], s) then None else Some(Join(SectionLines(d.key[..], d.val[..], s)))
  {
    hide Dictionary.Valid, Dictionary.Content, Represented, LowerCut, Join, KeyLines;
    Sized(d);
    var lower := Strlwc(s);
    var known := d.HasKey(lower);
    EntriesListed(d);
    JoinNothing();
    if !known { return Some(""); }
    if |s| + 1 > ASCIILINESZ { return None; }
    var keys := DumpKeys(d, s);
    var text := "\n[" + s + "]\n" + keys + "\n";
    out := Some(text);
    ghost var lines := KeyLines(d.key[..], d.val[..], s);
    JoinTwo("", SectionLine(s));
    JoinAppend(["", SectionLine(s)], lines);
    JoinSnoc(["", SectionLine(s)] + lines, "");
    assert text == Join(SectionLines(d.key[..], d.val[..], s));
  }

  method DumpKeys(d: Dictionary, s: string) returns (out: string)
    requires d.Valid()
    ensures out == Join(KeyLines(d.key[..], d.val[..], s))
  {
    hide Dictionary.Valid, Dictionary.Content, Represented, Pad30, Join;
    Sized(d);
    JoinNothing();
    out := "";
    ghost var lines := [];
    for j := 0 to d.size
      invariant out == Join(lines) && lines == KeyLines(d.key[..j], d.val[..j], s)
    {
      assert d.key[..j + 1][..j] == d.key[..j] && d.val[..j + 1][..j] == d.val[..j];
      if d.key[j] != None && InSection(d.key[j].value, s) {
        ghost var line := KeyLine(KeyName(d.key[j].value, s), Text(d.val[j]));
        out := out + Pad30(KeyName(d.key[j].value, s)) + " = " + Text(d.val[j]) + "\n";
        JoinSnoc(lines, line);
        lines := lines + [line];
      }
    }
    assert d.key[..d.size] == d.key[..] && d.val[..d.size] == d.val[..];
  }

  lemma JoinSnoc(lines: seq<string>, line: string)
    ensures Join(lines + [line]) == Join(lines) + line + "\n"
  {
    JoinAppend(lines, [line]);
    assert [line][1..] == [];
  }

  lemma JoinNothing()
    ensures Join([]) == ""
  {
  }

  lemma JoinTwo(a: string, b: string)
    ensures Join([a, b]) == a + "\n" + b + "\n"
  {
    JoinSnoc([], a);
    JoinSnoc([a], b);
    assert [a] + [b] == [a, b] && [] + [a] == [a];
  }

  method DumpIni(d: Dictionary) returns (out: Option<string>)
    requires d.Valid()
    ensures out == None <==> exists s :: s in SectionNames(d.key[..]) && Overlong(d.key[..], s)
    ensures out.Some? ==> out.value == Join(DumpLines(d.key[..], d.val[..]))
  {
    hide Dictionary.Valid, Dictionary.Content, Represented, SectionLines, SectionNames, KeyLines, Join, Overlong;
    Sized(d);
    var nsec := GetNsec(d);
    if nsec < 1 {
      var bare := DumpBare(d);
      return Some(bare);
    }
    ghost var names := SectionNames(d.key[..]);
    ghost var lines := [];
    var text := "";
    JoinNothing();
    for i := 0 to nsec
      invariant text == Join(lines) && lines == AllSections(names[..i], d.key[..], d.val[..])
      invariant forall j :: 0 <= j < i ==> !Overlong(d.key[..], names[j])
    {
      assert names[..i + 1][..i] == names[..i];
      var name := GetSecname(d, i);
      var part := DumpSection(d, name.value);
      if part == None {
        assert names[i] in names;
        return None;
      }
      text := text + part.value;
      JoinAppend(lines, SectionLines(d.key[..], d.val[..], names[i]));
      lines := lines + SectionLines(d.key[..], d.val[..], names[i]);
    }
    assert names[..nsec] == names;
    JoinSnoc(lines, "");
    out := Some(text + "\n");
  }

  method DumpBare(d: Dictionary) returns (out: string)
    requires d.Valid()
    ensures out == Join(BareLines(d.key[..], d.val[..]))
  {
    hide Dictionary.Valid, Dictionary.Content, Represented, Join;
    Sized(d);
    out := "";
    ghost var lines := [];
    JoinNothing();
    for i := 0 to d.size
      invariant out == Join(lines) && lines == BareLines(d.key[..i], d.val[..i])
    {
      assert d.key[..i + 1][..i] == d.key[..i] && d.val[..i + 1][..i] == d.val[..i];
      if d.key[i] != None {
        var value := if d.val[i].Some? then d.val[i].value else "(null)";
        out := out + d.key[i].value + " = " + value + "\n";
        JoinSnoc(lines, d.key[i].value + " = " + value);
        lines := lines + [d.key[i].value + " = " + value];
      }
    }
    assert d.key[..d.size] == d.key[..] && d.val[..d.size] == d.val[..];
  }

  // ---------------------------------------------------------------- loading

  /** How many characters are read: up to and with the first line end, at most `room`. */
  function Chunk(text: string, room: nat): (n: nat)
    ensures n <= |text| && n <= room && (text != "" && room > 0 ==> n > 0)
    ensures forall i :: 0 <= i < n - 1 ==> text[i] != '\n'
    ensures n == room || n == |text| || (n > 0 && text[n - 1] == '\n')
  {
    if text == "" || room == 0 then 0
    else if text[0] == '\n' then 1
    else 1 + Chunk(text[1..], room - 1)
  }

  /** The lines that are read, and whether they are all of the file. */
  datatype Read = Read(lines: seq<string>, whole: bool)

  /** The lines of a file without their trailing blanks, each joined to the next one at a
      backslash, up to a line that, with what was carried to it, is too long or not ended. */
  function ReadLines(carried: string, text: string): Read
    requires |carried| < ASCIILINESZ - 2
    decreases |text|
  {
    if text == "" then Read([], true)
    else
      var n := Chunk(text, ASCIILINESZ - 1 - |carried|);
      var line := carried + text[..n];
      if |line| == 1 then ReadLines("", text[n..])
      else if line[|line| - 1] != '\n' then Read([], false)
      else
        var cut := TrimEnd(line);
        CutShorter(line);
        if Continues(cut) then ReadLines(cut[..|cut| - 1], text[n..])
        else Prefixed([cut], ReadLines("", text[n..]))
  }

  lemma ReadStep(carried: string, text: string, line: string, rest: string)
    requires |carried| < ASCIILINESZ - 2 && text != ""
    requires var n := Chunk(text, ASCIILINESZ - 1 - |carried|);
             line == carried + text[..n] && rest == text[n..]
    ensures 0 < |line| < ASCIILINESZ && (|line| == 1 ==> ReadLines(carried, text) == ReadLines("", rest))
    ensures |line| > 1 && line[|line| - 1] != '\n' ==> ReadLines(carried, text) == Read([], false)
    ensures |line| > 1 && line[|line| - 1] == '\n' ==>
              var cut := TrimEnd(line);
              |cut| < |line| && ReadLines(carried, text)
              == if Continues(cut) then ReadLines(cut[..|cut| - 1], rest) else Prefixed([cut], ReadLines("", rest))
  {
    hide Chunk, TrimEnd, Prefixed;
    if line[|line| - 1] == '\n' { CutShorter(line); }
  }

  lemma CutShorter(line: string)
    requires line != "" && line[|line| - 1] == '\n'
    ensures |TrimEnd(line)| < |line|
  {
  }

  function Prefixed(lines: seq<string>, more: Read): Read {
    more.(lines := lines + more.lines)
  }

  lemma PrefixedTwice(a: seq<string>, b: seq<string>, more: Read)
    ensures Prefixed(a, Prefixed(b, more)) == Prefixed(a + b, more)
    ensures Prefixed([], more) == more
  {
    assert a + (b + more.lines) == a + b + more.lines;
    assert [] + more.lines == more.lines;
  }

  lemma PrefixedEnd(a: seq<string>, whole: bool)
    ensures Prefixed(a, Read([], whole)) == Read(a, whole)
  {
    assert a + [] == a;
  }

  /** `overrun` when a section and a key did not fit the buffer that joins them. */
  datatype Loaded = Loaded(section: string, entries: Entries, errs: nat, overrun: bool)

  const START := Loaded("", map[], 0, false)

  /** A section or a value that is stored sets the error count back to zero. */
  function Store(st: Loaded, line: Line): Loaded {
    if st.overrun then st
    else match line
      case Empty => st
      case Comment => st
      case Section(s) => st.(section := s, entries := st.entries[s := None], errs := 0)
      case Value(k, v) =>
        if |st.section| + 1 + |k| > ASCIILINESZ then st.(overrun := true)
        else st.(entries := st.entries[st.section + ":" + k := Some(v)], errs := 0)
      case Error => st.(errs := st.errs + 1)
  }

  function StoreLines(st: Loaded, lines: seq<string>): Loaded {
    if lines == [] then st
    else
      var before := StoreLines(st, lines[..|lines| - 1]);
      Store(before, ParseLine(lines[|lines| - 1], before.section))
  }

  /** A file gives entries or is refused, unless the source overruns its buffer first. */
  datatype Outcome = Refused | Overrun | Gives(entries: Entries)

  function Load(text: string): Outcome {
    var read := ReadLines("", text);
    var st := StoreLines(START, read.lines);
    if st.overrun then Overrun
    else if !read.whole || st.errs != 0 then Refused
    else Gives(st.entries)
  }

  /** The dictionary of a file, or null when it is refused; `overrun` where the source
      overruns its buffer. */
  method LoadIni(text: string, hashOf: string -> int) returns (dict: Dictionary?, overrun: bool)
    ensures overrun <==> Load(text) == Overrun
    ensures !overrun ==> (dict == null <==> Load(text) == Refused)
    ensures dict != null ==> fresh(dict) && fresh(dict.Arrays()) && dict.Valid() && Load(text) == Gives(dict.Entries())
  {
    hide Dictionary.Valid, Dictionary.Content, Represented, StoreLines, Chunk, Prefixed, TrimEnd, ReadLines, Store;
    var d := new Dictionary(0, hashOf);
    var line, section, errs, pos := "", "", 0, 0;
    ghost var done: seq<string> := [];
    StoreNothing(START);
    assert text[0..] == text;
    PrefixedTwice([], [], ReadLines("", text));
    dict, overrun := null, false;
    while pos < |text|
      invariant pos <= |text| && |line| < ASCIILINESZ - 2 && |section| <= ASCIILINESZ
      invariant d.Valid() && fresh(d) && fresh(d.Arrays()) && dict == null && !overrun
      invariant ReadLines("", text) == Prefixed(done, ReadLines(line, text[pos..]))
      invariant StoreLines(START, done) == Loaded(section, d.Entries(), errs, false)
    {
      var n := Chunk(text[pos..], ASCIILINESZ - 1 - |line|);
      ReadStep(line, text[pos..], line + text[pos..][..n], text[pos..][n..]);
      line := line + text[pos..][..n];
      assert text[pos..][n..] == text[pos + n..];
      pos := pos + n;
      if |line| == 1 {
        line := "";
        continue;
      }
      if line[|line| - 1] != '\n' {
        PrefixedEnd(done, false);
        return;
      }
      line := CutEnd(line);
      if Continues(line) {
        line := line[..|line| - 1];
        continue;
      }
      PrefixedTwice(done, [line], ReadLines("", text[pos..]));
      StoreSnoc(START, done, line);
      section, errs, overrun := StoreLine(d, line, section, errs);
      done := done + [line];
      if overrun {
        StaysOverrun(done, ReadLines("", text[pos..]).lines);
        PrefixedLines(done, ReadLines("", text[pos..]));
        return;
      }
      line := "";
    }
    assert text[pos..] == "";
    NothingRead(line);
    PrefixedEnd(done, true);
    dict := if errs != 0 then null else d;
  }

  lemma PrefixedLines(a: seq<string>, more: Read)
    ensures Prefixed(a, more).lines == a + more.lines
  {
  }

  lemma {:induction false} StaysOverrun(a: seq<string>, b: seq<string>)
    requires StoreLines(START, a).overrun
    ensures StoreLines(START, a + b).overrun
    decreases |b|
  {
    hide ParseLine, StoreLines;
    if b == [] {
      assert a + b == a;
    } else {
      var n := |b| - 1;
      StaysOverrun(a, b[..n]);
      StoreSnoc(START, a + b[..n], b[n]);
      assert a + b == a + b[..n] + [b[n]];
    }
  }

  lemma NothingRead(carried: string)
    requires |carried| < ASCIILINESZ - 2
    ensures ReadLines(carried, "") == Read([], true)
  {
  }

  method StoreLine(d: Dictionary, line: string, present: string, before: nat) returns (section: string, errs: nat, overrun: bool)
    requires d.Valid() && |line| <= ASCIILINESZ && |present| <= ASCIILINESZ
    modifies d, d.Arrays()
    ensures d.Valid() && (d.Arrays() == old(d.Arrays()) || fresh(d.Arrays()))
    ensures Loaded(section, d.Entries(), errs, overrun) == Store(Loaded(present, old(d.Entries()), before, false), ParseLine(line, present))
    ensures |section| <= ASCIILINESZ
  {
    hide Dictionary.Valid, Dictionary.Content, Represented, ParseLine;
    var status := ScanLine(line, present);
    SectionFits(line, present);
    section, errs, overrun := present, before, false;
    match status {
      case Empty =>
      case Comment =>
      case Section(s) =>
        section := s;
        errs := d.Set(Some(s), None);
      case Value(k, v) =>
        if |present| + 1 + |k| > ASCIILINESZ {
          overrun := true;
        } else {
          errs := d.Set(Some(present + ":" + k), Some(v));
        }
      case Error => errs := errs + 1;
    }
  }

  lemma SectionFits(line: string, present: string)
    ensures var p := ParseLine(line, present);
            p.Section? ==> |p.name| <= |line| || |p.name| <= |present|
  {
    var text := Strip(line);
    Shorter(line);
    Shorter(present);
    if text != "" {
      Shorter(text[1..][..Span(text[1..], "]", false)]);
      assert text[1..][..Span(text[1..], "]", false)] == text[1..Span(text[1..], "]", false) + 1];
    }
  }

  lemma StoreNothing(st: Loaded)
    ensures StoreLines(st, []) == st
  {
  }

  lemma StoreSnoc(st: Loaded, lines: seq<string>, line: string)
    ensures StoreLines(st, lines + [line])
            == Store(StoreLines(st, lines), ParseLine(line, StoreLines(st, lines).section))
  {
    assert (lines + [line])[..|lines|] == lines;
  }

  // ---------------------------------------------------------------- when a load fails

  /** What the i-th line was taken for. */
  function Status(lines: seq<string>, i: nat): Line
    requires i < |lines|
  {
    ParseLine(lines[i], StoreLines(START, lines[..i]).section)
  }

  predicate Storing(line: Line) {
    line.Section? || line.Value?
  }

  /** Some line is a syntax error, and no later one stores anything. */
  ghost predicate EndsInError(lines: seq<string>) {
    exists i :: 0 <= i < |lines| && Status(lines, i).Error? && forall j :: i < j < |lines| ==> !Storing(Status(lines, j))
  }

  lemma EndsInErrorSnoc(lines: seq<string>)
    requires lines != []
    ensures var (n, last) := (|lines| - 1, Status(lines, |lines| - 1));
            EndsInError(lines) <==> last.Error? || (!Storing(last) && EndsInError(lines[..n]))
  {
    hide ParseLine, StoreLines;
    var n := |lines| - 1;
    var init := lines[..n];
    forall i | 0 <= i < n ensures Status(init, i) == Status(lines, i) {
      assert init[..i] == lines[..i];
    }
    if EndsInError(init) && !Storing(Status(lines, n)) {
      var i :| 0 <= i < n && Status(init, i).Error? && forall j :: i < j < n ==> !Storing(Status(init, j));
      assert Status(lines, i).Error?;
    }
  }

  lemma {:induction false} ErrorsCount(lines: seq<string>)
    requires !StoreLines(START, lines).overrun
    ensures StoreLines(START, lines).errs != 0 <==> EndsInError(lines)
    decreases |lines|
  {
    hide ParseLine, EndsInError;
    if lines != [] {
      EndsInErrorSnoc(lines);
      ErrorsCount(lines[..|lines| - 1]);
    } else {
      NoError();
    }
  }

  lemma NoError()
    ensures !EndsInError([])
  {
  }

  /** A file whose lines are all read is refused exactly when it ends in a syntax error: one
      after which no line stores anything. */
  lemma FailsExactly(text: string)
    requires ReadLines("", text).whole && Load(text) != Overrun
    ensures Load(text) == Refused <==> EndsInError(ReadLines("", text).lines)
  {
    ErrorsCount(ReadLines("", text).lines);
  }

  lemma Oops(section: string)
    ensures ParseLine("oops", section) == Error
  {
    StripIdentity("oops");
    SpanStops("oops", "=", "");
    assert "oops" + "" == "oops";
  }

  lemma KeyAndValue(section: string)
    ensures ParseLine("k = v", section) == Value("k", "v")
  {
    hide SkipSpaces, TrimEnd, Span;
    var line, rest := "k = v", " v";
    StripIdentity(line);
    SpanStops("k ", "=", "= v");
    assert "k " + "= v" == line && line[..2] == "k " && line[3..] == rest;
    TrimEndOf("k", " ");
    assert "k" + " " == "k ";
    SkipSpacesOf(" ", "v");
    SpanStops("v", ";#", "");
    assert " " + "v" == rest && "v" + "" == "v" && "v"[..1] == "v";
    StripIdentity("k");
    StripIdentity("v");
    KeyBlank();
  }

  lemma KeyBlank()
    ensures SkipSpaces("k ") == "k "
  {
  }
}
