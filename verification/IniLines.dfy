/**
 What the lines of an ini file mean (src/etc/etc_iniparser.c, `iniparser_line`), stated on
 their text: quoted and plain values, comments, empty values, sections and errors.
 */
module IniLines {
  import opened Options
  import opened IniText

  // ---------------------------------------------------------------- characters

  /** The blanks of the C locale, as section 7.4.1.10 of C99 lists them. */
  lemma BlanksAre(c: char)
    ensures IsSpace(c) <==> c in [' ', '\t', '\n', '\r', 0x0b as char, 0x0c as char]
  {
  }

  /** The k-th capital becomes the k-th small letter; no other character changes. */
  lemma LowerCaseIs(c: char)
    ensures var (capitals, smalls) := ("ABCDEFGHIJKLMNOPQRSTUVWXYZ", "abcdefghijklmnopqrstuvwxyz");
            if 'A' <= c <= 'Z'
            then capitals[c as int - 'A' as int] == c && smalls[c as int - 'A' as int] == LowerChar(c)
            else LowerChar(c) == c
  {
  }

  // ---------------------------------------------------------------- assignments

  /** The text before an equals sign that can be a key. */
  ghost predicate KeyStart(key: string) {
    key != "" && !IsSpace(key[0]) && key[0] !in "#;" && Avoids(key, "=")
  }

  /** The line's last character that is not blank. */
  predicate EndsWith(s: string, c: char) {
    TrimEnd(s) != "" && TrimEnd(s)[|TrimEnd(s)| - 1] == c
  }

  lemma {:induction false} TrimEndAppend(a: string, b: string)
    ensures TrimEnd(a + b) == if TrimEnd(b) == "" then TrimEnd(a) else a + TrimEnd(b)
  {
    var u := TrimEnd(b);
    TrimEndShape(b);
    assert b == u + b[|u|..];
    if u == "" {
      assert b[0..] == b;
      TrimEndOf(a, b);
    } else {
      assert a + b == (a + u) + b[|u|..];
      TrimEndOf(a + u, b[|u|..]);
    }
  }

  /** The same line without the blanks after it. */
  lemma {:induction false} AssignmentStripped(key: string, pad: string, body: string)
    requires KeyStart(key) && AllSpaces(pad)
    ensures Strip(key + "=" + pad + body) == key + "=" + (if TrimEnd(body) == "" then "" else pad + TrimEnd(body))
  {
    var front := key + "=";
    assert (front + pad + body)[0] == key[0];
    assert front + pad + body == front + (pad + body);
    TrimEndAppend(pad, body);
    TrimEndAppend(front, pad + body);
    TrimEndOf("", pad);
    assert "" + pad == pad;
    assert TrimEnd(body) != "" ==> pad + TrimEnd(body) != "";
  }

  /** What a line with an equals sign means, when no square brackets enclose it. */
  lemma {:induction false} Assignment(key: string, pad: string, body: string, section: string)
    requires KeyStart(key) && AllSpaces(pad) && (body == "" || !IsSpace(body[0]))
    requires !(key[0] == '[' && EndsWith(body, ']'))
    ensures ParseLine(key + "=" + pad + body, section)
            == Value(Lower(Strip(key)), match Scanned(TrimEnd(body)) case Some(v) => Unquoted(Strip(v)) case None => "")
  {
    hide Scanned, Lower, Strip, TrimEnd;
    var u := TrimEnd(body);
    var rest := if u == "" then "" else pad + u;
    var line := key + "=" + rest;
    AssignmentStripped(key, pad, body);
    TrimEndShape(body);
    assert line[0] == key[0] && line[|line| - 1] == if u == "" then '=' else u[|u| - 1];
    assert "#;"[0] == '#' && "#;"[1] == ';';
    assert line == key + ("=" + rest);
    SpanStops(key, "=", "=" + rest);
    assert line[..|key|] == key && line[|key| + 1..] == rest;
    SkipSpacesOf(pad, u);
    assert u != "" ==> u[0] == body[0];
  }

  // ---------------------------------------------------------------- values

  predicate IsQuote(c: char) {
    c == '\"' || c == '\''
  }

  function OtherQuote(c: char): char {
    if c == '\"' then '\'' else '\"'
  }

  /** The text between quotes, without the blanks around it; a pair of the other quotes is the
      empty value. */
  function Inside(text: string, quote: char): string {
    if Strip(text) == [OtherQuote(quote), OtherQuote(quote)] then "" else Strip(text)
  }

  /** What follows a value: nothing, or a comment. */
  predicate CommentOrEnd(tail: string) {
    tail == "" || tail[0] == ';' || tail[0] == '#'
  }

  lemma {:induction false} ScannedQuoted(text: string, quote: char, tail: string)
    requires IsQuote(quote) && text != "" && quote !in text && (tail == "" || tail[0] == quote)
    ensures Scanned([quote] + text + tail) == Some(text)
  {
    var rest := [quote] + text + tail;
    assert rest[1..] == text + tail;
    assert tail != "" ==> tail[0] in [quote];
    SpanStops(text, [quote], tail);
    assert rest[1..|text| + 1] == text;
  }

  lemma {:induction false} UnquotedInside(text: string, quote: char)
    requires IsQuote(quote) && quote !in text
    ensures Unquoted(Strip(text)) == Inside(text, quote)
  {
    if quote in Strip(text) {
      SkipSpacesShape(text);
      TrimEndShape(SkipSpaces(text));
    }
    assert "\"\""[0] == '\"' && "''"[0] == '\'';
  }

  /** A quoted value ends at the closing quote, whatever follows. */
  lemma {:induction false} QuotedValue(key: string, pad: string, quote: char, text: string, tail: string, section: string)
    requires KeyStart(key) && AllSpaces(pad) && IsQuote(quote) && text != "" && quote !in text
    requires !(key[0] == '[' && EndsWith(tail, ']'))
    ensures ParseLine(key + "=" + pad + ([quote] + text + ([quote] + tail)), section)
            == Value(Lower(Strip(key)), Inside(text, quote))
  {
    hide Scanned, Lower, Strip, Unquoted, ParseLine, Inside;
    var front := [quote] + text;
    CloseTrimmed(front, quote, tail);
    Assignment(key, pad, front + ([quote] + tail), section);
    ScannedQuoted(text, quote, [quote] + TrimEnd(tail));
    UnquotedInside(text, quote);
  }

  lemma {:induction false} CloseTrimmed(front: string, quote: char, tail: string)
    requires IsQuote(quote)
    ensures TrimEnd(front + ([quote] + tail)) == front + ([quote] + TrimEnd(tail))
    ensures EndsWith(front + ([quote] + tail), ']') <==> EndsWith(tail, ']')
  {
    hide TrimEnd;
    TrimEndAppend([quote], tail);
    StripIdentity([quote]);
    TrimEndAppend(front, [quote] + tail);
    assert TrimEnd(tail) == "" ==> [quote] + TrimEnd(tail) == [quote];
  }

  /** Without a closing quote the value goes on to the end of the line. */
  lemma {:induction false} OpenQuote(key: string, pad: string, quote: char, text: string, section: string)
    requires KeyStart(key) && AllSpaces(pad) && IsQuote(quote) && TrimEnd(text) != "" && quote !in text
    requires !(key[0] == '[' && EndsWith(text, ']'))
    ensures ParseLine(key + "=" + pad + ([quote] + text), section)
            == Value(Lower(Strip(key)), Inside(TrimEnd(text), quote))
  {
    hide Scanned, Lower, Strip, Unquoted, ParseLine, Inside;
    TrimEndAppend([quote], text);
    Assignment(key, pad, [quote] + text, section);
    TrimEndShape(text);
    assert [quote] + TrimEnd(text) + "" == [quote] + TrimEnd(text);
    ScannedQuoted(TrimEnd(text), quote, "");
    UnquotedInside(TrimEnd(text), quote);
  }

  lemma {:induction false} ScannedPlain(text: string, tail: string)
    requires text != "" && Avoids(text, ";#") && CommentOrEnd(tail)
    requires !IsQuote(text[0]) || (|text| > 1 && text[1] == text[0])
    ensures Scanned(text + tail) == Some(text)
  {
    var rest := text + tail;
    assert ";#"[0] == ';' && ";#"[1] == '#';
    SpanStops(text, ";#", tail);
    assert rest[..|text|] == text;
    assert rest[0] == text[0] && (|text| > 1 ==> rest[1..][0] == text[1]);
  }

  /** A plain value ends at a comment, and loses the blanks before it. */
  lemma {:induction false} PlainValue(key: string, pad: string, val: string, gap: string, tail: string, section: string)
    requires KeyStart(key) && AllSpaces(pad) && AllSpaces(gap) && CommentOrEnd(tail)
    requires val != "" && Trimmed(val) && Avoids(val, ";#")
    requires !IsQuote(val[0]) || (|val| > 1 && val[1] == val[0])
    requires !(key[0] == '[' && EndsWith(val + gap + tail, ']'))
    ensures ParseLine(key + "=" + pad + (val + gap + tail), section)
            == Value(Lower(Strip(key)), if val == "\"\"" || val == "''" then "" else val)
  {
    hide Scanned, Lower, SkipSpaces, TrimEnd, ParseLine;
    var body := val + gap + tail;
    assert body[0] == val[0];
    TrimEndAppend(val + gap, tail);
    TrimEndOf(val, gap);
    StripIdentity(val);
    Assignment(key, pad, body, section);
    if TrimEnd(tail) == "" {
      assert val + "" == val;
      ScannedPlain(val, "");
    } else {
      TrimEndShape(tail);
      BlanksAvoid(gap);
      assert Avoids(val + gap, ";#");
      assert (val + gap)[0] == val[0] && (|val| > 1 ==> (val + gap)[1] == val[1]);
      ScannedPlain(val + gap, TrimEnd(tail));
      StripPadded(val, gap);
    }
  }

  lemma StripPadded(val: string, gap: string)
    requires val != "" && Trimmed(val) && AllSpaces(gap)
    ensures Strip(val + gap) == val
  {
    assert (val + gap)[0] == val[0];
    TrimEndOf(val, gap);
  }

  lemma BlanksAvoid(gap: string)
    requires AllSpaces(gap)
    ensures Avoids(gap, ";#")
  {
    assert ";#"[0] == ';' && ";#"[1] == '#';
    forall i | 0 <= i < |gap| ensures gap[i] !in ";#" {
      assert IsSpace(gap[i]);
    }
  }

  /** Nothing after the equals sign, or a comment only: the empty value. */
  lemma {:induction false} EmptyValue(key: string, pad: string, tail: string, section: string)
    requires KeyStart(key) && AllSpaces(pad) && CommentOrEnd(tail)
    requires !(key[0] == '[' && EndsWith(tail, ']'))
    ensures ParseLine(key + "=" + pad + tail, section) == Value(Lower(Strip(key)), "")
  {
    hide Lower, Strip, TrimEnd, ParseLine;
    Assignment(key, pad, tail, section);
    TrimEndShape(tail);
    assert ";#"[0] == ';' && ";#"[1] == '#';
  }

  // ---------------------------------------------------------------- other lines

  /** A line is a comment exactly when its first character that is not blank says so. */
  lemma CommentExactly(input: string, section: string)
    ensures ParseLine(input, section) == Comment
            <==> SkipSpaces(input) != "" && (SkipSpaces(input)[0] == '#' || SkipSpaces(input)[0] == ';')
  {
    TrimEndShape(SkipSpaces(input));
    SkipSpacesShape(input);
  }

  /** A line is a syntax error exactly when it is not empty, no comment and no section, and has
      no equals sign or nothing before it. */
  lemma {:induction false} ErrorExactly(input: string, section: string)
    ensures var line := Strip(input);
            ParseLine(input, section) == Error
            <==> line != "" && line[0] !in "#;" && !Bracketed(line) && ('=' !in line || line[0] == '=')
  {
    var line := Strip(input);
    assert "#;"[0] == '#' && "#;"[1] == ';';
    SpanAvoids(line, "=");
    assert "="[0] == '=';
    if '=' in line {
      var i :| 0 <= i < |line| && line[i] == '=';
      assert !Avoids(line, "=");
    } else {
      assert Avoids(line, "=");
    }
  }

  lemma BlankLine(input: string, section: string)
    requires AllSpaces(input)
    ensures ParseLine(input, section) == Empty
  {
    TrimEndOf("", input);
    SkipSpacesOf(input, "");
    assert input + "" == input;
  }

  /** A line in square brackets names a section, up to the first closing bracket; an empty
      name keeps the present section. */
  lemma {:induction false} SectionLineMeans(name: string, rest: string, section: string)
    requires Avoids(name, "]") && (rest == "" || rest[|rest| - 1] == ']')
    ensures ParseLine("[" + name + "]" + rest, section) == Section(Lower(Strip(if name == "" then section else name)))
  {
    hide Lower, SkipSpaces, TrimEnd;
    var line := "[" + name + "]" + rest;
    StripIdentity(line);
    assert line[1..] == name + ("]" + rest);
    SpanStops(name, "]", "]" + rest);
    assert line[1..|name| + 1] == name;
  }
}
