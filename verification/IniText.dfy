/**
 Reading one line of an ini file (src/etc/etc_iniparser.c): blank stripping, lower-casing
 and the `sscanf` patterns, whose conversions are those of section 7.19.6.2 of C99.

 Characters are those of the C locale; a C string does not contain NUL.
 */
module IniText {
  import opened Options

  predicate IsSpace(c: char) {
    c == ' ' || c == '\t' || c == '\n' || c == '\r' || c == 11 as char || c == 12 as char
  }

  function LowerChar(c: char): char {
    if 'A' <= c <= 'Z' then (c as int + 32) as char else c
  }

  function Lower(s: string): (r: string)
    ensures |r| == |s|
  {
    seq(|s|, i requires 0 <= i < |s| => LowerChar(s[i]))
  }

  function SkipSpaces(s: string): (r: string)
    ensures |r| <= |s|
  {
    if s != "" && IsSpace(s[0]) then SkipSpaces(s[1..]) else s
  }

  function TrimEnd(s: string): (r: string)
    ensures |r| <= |s|
  {
    if s != "" && IsSpace(s[|s| - 1]) then TrimEnd(s[..|s| - 1]) else s
  }

  function Strip(s: string): string {
    TrimEnd(SkipSpaces(s))
  }

  /** The length of the longest start of `s` without (or, for `inside`, made of) the given
      characters: what the conversion %[^...] (or %[...]) reads. */
  function Span(s: string, chars: string, inside: bool): (n: nat)
    ensures n <= |s|
  {
    if s != "" && (s[0] in chars) == inside then 1 + Span(s[1..], chars, inside) else 0
  }

  datatype Line = Empty | Comment | Section(name: string) | Value(key: string, val: string) | Error

  /** The text of the key, up to the first equals sign. */
  function KeyText(line: string): string {
    line[..Span(line, "=", false)]
  }

  /** What follows the equals sign and the blanks after it, when there is a key and an
      equals sign. */
  function ValueText(line: string): Option<string> {
    var n := Span(line, "=", false);
    if n == 0 || n == |line| then None else Some(SkipSpaces(line[n + 1..]))
  }

  /** A value between the given quotes; the closing quote may be missing. */
  function Quoted(rest: string, quote: char): Option<string> {
    if rest == "" || rest[0] != quote then None
    else
      var n := Span(rest[1..], [quote], false);
      if n == 0 then None else Some(rest[1..n + 1])
  }

  /** A value up to the start of a comment. */
  function Plain(rest: string): Option<string> {
    var n := Span(rest, ";#", false);
    if n == 0 then None else Some(rest[..n])
  }

  /** The first of the three value patterns that matches. */
  function Scanned(rest: string): Option<string> {
    if Quoted(rest, '\"').Some? then Quoted(rest, '\"')
    else if Quoted(rest, '\'').Some? then Quoted(rest, '\'')
    else Plain(rest)
  }

  /** A doubled quote that was scanned as text stands for the empty value. */
  function Unquoted(v: string): string {
    if v == "\"\"" || v == "''" then "" else v
  }

  /** The line as the parser understands it; an empty section name keeps the present one. */
  function ParseLine(input: string, section: string): Line {
    var line := Strip(input);
    if line == "" then Empty
    else if line[0] == '#' || line[0] == ';' then Comment
    else if line[0] == '[' && line[|line| - 1] == ']' then
      var n := Span(line[1..], "]", false);
      Section(Lower(Strip(if n == 0 then section else line[1..n + 1])))
    else if ValueText(line) == None then Error
    else match Scanned(ValueText(line).value)
      case Some(v) => Value(Lower(Strip(KeyText(line))), Unquoted(Strip(v)))
      case None => Value(Lower(Strip(KeyText(line))), "")
  }

  // ---------------------------------------------------------------- stripping

  predicate Trimmed(s: string) {
    s == "" || (!IsSpace(s[0]) && !IsSpace(s[|s| - 1]))
  }

  ghost predicate AllSpaces(s: string) {
    forall i :: 0 <= i < |s| ==> IsSpace(s[i])
  }

  lemma {:induction false} SkipSpacesOf(pad: string, s: string)
    requires AllSpaces(pad)
    ensures SkipSpaces(pad + s) == SkipSpaces(s)
  {
    if pad == "" {
      assert pad + s == s;
    } else {
      assert (pad + s)[1..] == pad[1..] + s;
      SkipSpacesOf(pad[1..], s);
    }
  }

  lemma {:induction false} TrimEndOf(s: string, pad: string)
    requires AllSpaces(pad)
    ensures TrimEnd(s + pad) == TrimEnd(s)
    decreases |pad|
  {
    if pad == "" {
      assert s + pad == s;
    } else {
      var n := |pad| - 1;
      assert (s + pad)[..|s + pad| - 1] == s + pad[..n];
      TrimEndOf(s, pad[..n]);
    }
  }

  lemma StripIdentity(s: string)
    requires Trimmed(s)
    ensures SkipSpaces(s) == s && TrimEnd(s) == s && Strip(s) == s
  {
  }

  lemma {:induction false} SkipSpacesShape(s: string)
    ensures SkipSpaces(s) == "" || !IsSpace(SkipSpaces(s)[0])
    ensures SkipSpaces(s) == s[|s| - |SkipSpaces(s)|..] && AllSpaces(s[..|s| - |SkipSpaces(s)|])
  {
    if s != "" && IsSpace(s[0]) {
      SkipSpacesShape(s[1..]);
      var k := |s| - |SkipSpaces(s)|;
      assert s[1..][k - 1..] == s[k..] && s[..k] == [s[0]] + s[1..][..k - 1];
    }
  }

  lemma {:induction false} TrimEndShape(s: string)
    ensures TrimEnd(s) == "" || !IsSpace(TrimEnd(s)[|TrimEnd(s)| - 1])
    ensures TrimEnd(s) == s[..|TrimEnd(s)|] && AllSpaces(s[|TrimEnd(s)|..])
    decreases |s|
  {
    if s != "" && IsSpace(s[|s| - 1]) {
      TrimEndShape(s[..|s| - 1]);
      var n := |TrimEnd(s)|;
      assert s[n..] == s[..|s| - 1][n..] + [s[|s| - 1]];
    }
  }

  /** Stripping takes away blanks at both ends, and leaves nothing to strip. */
  lemma StripTrims(s: string)
    ensures Trimmed(Strip(s))
    ensures exists i, j :: 0 <= i <= j <= |s| && Strip(s) == s[i..j] && AllSpaces(s[..i]) && AllSpaces(s[j..])
  {
    SkipSpacesShape(s);
    TrimEndShape(SkipSpaces(s));
    var i := |s| - |SkipSpaces(s)|;
    var j := i + |Strip(s)|;
    assert Strip(s) == s[i..j] && s[j..] == SkipSpaces(s)[|Strip(s)|..];
  }

  // ---------------------------------------------------------------- spans

  ghost predicate Avoids(s: string, chars: string) {
    forall i :: 0 <= i < |s| ==> s[i] !in chars
  }

  /** A span ends exactly before the first character that stops it. */
  lemma {:induction false} SpanStops(s: string, chars: string, rest: string)
    requires Avoids(s, chars) && (rest == "" || rest[0] in chars)
    ensures Span(s + rest, chars, false) == |s|
  {
    if s == "" {
      assert s + rest == rest;
    } else {
      assert (s + rest)[1..] == s[1..] + rest;
      SpanStops(s[1..], chars, rest);
    }
  }

  /** A span that is not empty text without stop characters is cut short. */
  lemma {:induction false} SpanAvoids(s: string, chars: string)
    ensures Avoids(s[..Span(s, chars, false)], chars)
    ensures Span(s, chars, false) == |s| <==> Avoids(s, chars)
  {
    if s != "" && s[0] !in chars {
      SpanAvoids(s[1..], chars);
      var n := Span(s[1..], chars, false);
      assert s[..n + 1] == [s[0]] + s[1..][..n];
    }
  }

  // ---------------------------------------------------------------- printed lines

  /** Padding on the right to 30 columns, as %-30s does. */
  function Pad30(s: string): string {
    s + Blanks(if |s| < 30 then 30 - |s| else 0)
  }

  function Blanks(n: nat): (s: string)
    ensures |s| == n && forall i :: 0 <= i < n ==> s[i] == ' '
  {
    seq(n, _ => ' ')
  }

  function KeyLine(name: string, val: string): string {
    Pad30(name) + " = " + val
  }

  function SectionLine(name: string): string {
    "[" + name + "]"
  }

  /** A key name that a printed line gives back. */
  ghost predicate CleanKey(name: string) {
    name != "" && Trimmed(name) && Lower(name) == name && Avoids(name, "=") && name[0] !in "#;"
  }

  /** A value that a printed line gives back: no blanks around it, no comment sign in it, no
      backslash at its end, and no opening quote that the scanner would take for one. */
  ghost predicate CleanValue(v: string) {
    v == "" || (
      && Trimmed(v) && Avoids(v, ";#") && v[|v| - 1] != '\\'
      && (|v| >= 2 && v[0] == '\"' ==> v[1] == '\"' && v != "\"\"")
      && (|v| >= 2 && v[0] == '\'' ==> v[1] == '\'' && v != "''"))
  }

  /** A key and a value whose line gives both back; a line in square brackets would be taken
      for a section. */
  ghost predicate CleanPair(name: string, val: string) {
    CleanKey(name) && CleanValue(val) && !(name[0] == '[' && val != "" && val[|val| - 1] == ']')
  }

  ghost predicate CleanSection(name: string) {
    name != "" && Trimmed(name) && Lower(name) == name && Avoids(name, "]")
  }

  /** The line ends with a backslash: the next one will be joined to it. */
  predicate Continues(line: string) {
    line != "" && line[|line| - 1] == '\\'
  }

  lemma LowerKeeps(s: string)
    ensures Lower(Lower(s)) == Lower(s) && (Trimmed(Lower(s)) <==> Trimmed(s))
  {
    assert s != "" ==> Lower(s)[0] == LowerChar(s[0]) && Lower(s)[|s| - 1] == LowerChar(s[|s| - 1]);
  }

  lemma Shorter(s: string)
    ensures |Unquoted(Strip(s))| <= |Strip(s)| <= |s|
    ensures |Strip(s)| == |s| ==> Strip(s) == s
  {
    SkipSpacesShape(s);
    TrimEndShape(SkipSpaces(s));
  }

  /** A span that stops inside a string does not see what follows it. */
  lemma {:induction false} SpanCut(s: string, chars: string, rest: string)
    requires !Avoids(s, chars)
    ensures Span(s + rest, chars, false) == Span(s, chars, false) < |s|
  {
    if s[0] !in chars {
      assert (s + rest)[1..] == s[1..] + rest;
      assert forall i :: 1 <= i < |s| ==> s[i] == s[1..][i - 1];
      SpanCut(s[1..], chars, rest);
    }
  }

  /** A section line gives its name back exactly when the name is clean. */
  lemma {:induction false} SectionSurvives(name: string, section: string)
    requires name != "" && Avoids(section, "]")
    ensures TrimEnd(SectionLine(name)) == SectionLine(name) && !Continues(SectionLine(name))
    ensures ParseLine(SectionLine(name), section) == Section(name) <==> CleanSection(name)
  {
    var line := SectionLine(name);
    StripIdentity(line);
    assert line[1..] == name + "]";
    if Avoids(name, "]") {
      SpanStops(name, "]", "]");
      assert line[1..|name| + 1] == name;
      NameSurvives(name);
    } else {
      BracketInside(name, section);
    }
  }

  lemma {:induction false} BracketInside(name: string, section: string)
    requires name != "" && Avoids(section, "]") && !Avoids(name, "]")
    ensures ParseLine(SectionLine(name), section) != Section(name)
  {
    var line := SectionLine(name);
    StripIdentity(line);
    assert line[1..] == name + "]";
    SpanCut(name, "]", "]");
    var n := Span(line[1..], "]", false);
    if n > 0 {
      Shorter(line[1..n + 1]);
    } else {
      StripKeepsOut(section, "]");
      assert name[0] == ']';
      assert Strip(section) != "" ==> LowerChar(Strip(section)[0]) != ']';
    }
  }

  lemma NameSurvives(name: string)
    ensures Lower(Strip(name)) == name <==> Trimmed(name) && Lower(name) == name
  {
    StripTrims(name);
    Shorter(name);
    LowerKeeps(Strip(name));
    if Trimmed(name) { StripIdentity(name); }
  }

  lemma StripKeepsOut(s: string, chars: string)
    requires Avoids(s, chars)
    ensures Avoids(Strip(s), chars)
  {
    SkipSpacesShape(s);
    TrimEndShape(SkipSpaces(s));
  }

  // ---------------------------------------------------------------- key lines

  /** A key line without its trailing blanks: the key, padded, the equals sign, and what is
      left of the value. */
  function KeyLineCut(name: string, w: string): string {
    Pad30(name) + " =" + (if w == "" then "" else " " + w)
  }

  lemma {:induction false} KeyLineTrimmed(name: string, val: string)
    requires name != "" && !IsSpace(name[0])
    ensures TrimEnd(KeyLine(name, val)) == KeyLineCut(name, TrimEnd(val))
    ensures Strip(KeyLineCut(name, TrimEnd(val))) == KeyLineCut(name, TrimEnd(val))
  {
    var w := TrimEnd(val);
    var cut := KeyLineCut(name, w);
    TrimEndShape(val);
    if w == "" {
      assert val[0..] == val;
      assert KeyLine(name, val) == cut + (" " + val);
      TrimEndOf(cut, " " + val);
    } else {
      assert val == w + val[|w|..];
      assert KeyLine(name, val) == cut + val[|w|..];
      TrimEndOf(cut, val[|w|..]);
    }
    StripIdentity(cut);
  }

  /** What is read back from the value of a key line. */
  function ReadBack(val: string): string {
    match Scanned(SkipSpaces(TrimEnd(val)))
    case Some(v) => Unquoted(Strip(v))
    case None => ""
  }

  lemma {:induction false} KeyTextOfLine(name: string, w: string)
    requires Avoids(name, "=")
    ensures KeyText(KeyLineCut(name, w)) == Pad30(name) + " "
    ensures ValueText(KeyLineCut(name, w)) == Some(SkipSpaces(w))
  {
    var line := KeyLineCut(name, w);
    var key, rest := Pad30(name) + " ", if w == "" then "=" else "= " + w;
    assert line == key + rest;
    assert Avoids(key, "=");
    SpanStops(key, "=", rest);
    assert line[..|key|] == key;
    assert line[|key| + 1..] == if w == "" then "" else " " + w;
    if w != "" {
      SkipSpacesOf(" ", w);
    }
  }

  lemma {:induction false} KeyTextStrips(name: string)
    requires Trimmed(name) && name != ""
    ensures Strip(Pad30(name) + " ") == name
  {
    var pad := Blanks(if |name| < 30 then 30 - |name| else 0) + " ";
    assert Pad30(name) + " " == name + pad;
    TrimEndOf(name, pad);
    StripIdentity(name);
  }

  predicate Bracketed(line: string) {
    line != "" && line[0] == '[' && line[|line| - 1] == ']'
  }

  lemma {:induction false} CutEnds(name: string, w: string)
    requires name != ""
    ensures var line := KeyLineCut(name, w);
            && line != "" && line[0] == name[0]
            && (Continues(line) <==> Continues(w))
            && (Bracketed(line) <==> name[0] == '[' && w != "" && w[|w| - 1] == ']')
  {
  }

  lemma {:induction false} KeyLineParses(name: string, val: string, section: string)
    requires CleanKey(name) && !Bracketed(KeyLineCut(name, TrimEnd(val)))
    ensures ParseLine(TrimEnd(KeyLine(name, val)), section) == Value(name, ReadBack(val))
  {
    hide KeyLineCut, KeyText, ValueText, Scanned, Strip, SkipSpaces, Pad30, Lower, KeyLine;
    var w := TrimEnd(val);
    CutEnds(name, w);
    assert "#;"[0] == '#' && "#;"[1] == ';';
    KeyLineTrimmed(name, val);
    KeyTextOfLine(name, w);
    KeyTextStrips(name);
  }

  lemma FirstStays(s: string)
    requires s != "" && !IsSpace(s[0])
    ensures Strip(s) != ""
  {
    TrimEndShape(s);
  }

  /** Only a clean key can come back. */
  lemma {:induction false} KeyNeeded(name: string, val: string, section: string, v: string)
    requires ParseLine(TrimEnd(KeyLine(name, val)), section) == Value(name, v)
    ensures CleanKey(name) && !Bracketed(KeyLineCut(name, TrimEnd(val)))
  {
    hide Lower, Strip, KeyLine, KeyLineCut, Scanned;
    var line, w := Strip(TrimEnd(KeyLine(name, val))), TrimEnd(val);
    StripTrims(TrimEnd(KeyLine(name, val)));
    var text := KeyText(line);
    FirstStays(text);
    StripTrims(text);
    LowerKeeps(Strip(text));
    KeyLineTrimmed(name, val);
    CutEnds(name, w);
    KeyAvoids(name, w);
  }

  lemma {:induction false} KeyAvoids(name: string, w: string)
    requires Lower(Strip(KeyText(KeyLineCut(name, w)))) == name
    ensures Avoids(name, "=")
  {
    if !Avoids(name, "=") {
      var line := KeyLineCut(name, w);
      assert line == name + line[|name|..];
      SpanCut(name, "=", line[|name|..]);
      Shorter(KeyText(line));
      assert false;
    }
  }

  lemma {:induction false} ScannedWhole(r: string)
    requires r != "" && Scanned(r).Some? && |r| <= |Scanned(r).value|
    ensures Avoids(r, ";#") && Scanned(r).value == r
    ensures |r| >= 2 && r[0] in "\"'" ==> r[1] == r[0]
  {
    SpanAvoids(r, ";#");
    assert r[..|r|] == r;
    assert "\"'"[0] == '\"' && "\"'"[1] == '\'';
  }

  lemma ScannedNothing()
    ensures Scanned("") == None
  {
  }

  lemma {:induction false} ReadBackClean(val: string)
    requires val != "" && ReadBack(val) == val && !Continues(TrimEnd(val))
    ensures CleanValue(val)
  {
    hide Scanned, Span, Strip;
    var r := SkipSpaces(TrimEnd(val));
    TrimEndShape(val);
    SkipSpacesShape(TrimEnd(val));
    ScannedNothing();
    Shorter(Scanned(r).value);
    ScannedWhole(r);
    assert r == val;
    StripTrims(r);
    assert "\"'"[0] == '\"' && "\"'"[1] == '\'';
  }

  lemma {:induction false} CleanReadBack(val: string)
    requires CleanValue(val)
    ensures ReadBack(val) == val && !Continues(TrimEnd(val))
  {
    StripIdentity(val);
    SpanAvoids(val, ";#");
    assert val[..|val|] == val;
  }

  /** A value survives printing and reading exactly when it is clean. */
  lemma {:induction false} ValueSurvives(val: string)
    ensures ReadBack(val) == val && !Continues(TrimEnd(val)) <==> CleanValue(val)
  {
    hide ReadBack, TrimEnd;
    if CleanValue(val) {
      CleanReadBack(val);
    } else if ReadBack(val) == val && !Continues(TrimEnd(val)) {
      ReadBackClean(val);
    }
  }

  /** A key line gives its key and value back exactly when they are clean. */
  lemma {:induction false} PairSurvives(name: string, val: string, section: string)
    ensures ParseLine(TrimEnd(KeyLine(name, val)), section) == Value(name, val) && !Continues(TrimEnd(KeyLine(name, val)))
            <==> CleanPair(name, val)
  {
    hide ParseLine, Lower, Strip, KeyLine, KeyLineCut, ReadBack;
    ValueSurvives(val);
    if CleanPair(name, val) {
      StripIdentity(val);
      CutEnds(name, val);
      KeyLineTrimmed(name, val);
      KeyLineParses(name, val, section);
    } else if ParseLine(TrimEnd(KeyLine(name, val)), section) == Value(name, val) {
      KeyNeeded(name, val, section, val);
      KeyLineParses(name, val, section);
      KeyLineTrimmed(name, val);
      CutEnds(name, TrimEnd(val));
      if CleanValue(val) { StripIdentity(val); }
    }
  }
}
