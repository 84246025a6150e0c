/**
 The integers that the argument scanner reads (src/etc/etc_argtable2.c, `strtol0X_int`,
 `detectsuffix_int`, `scanfn_int`): a number with an optional prefix, an optional unit and
 trailing blanks. Digits are read by `strtol`, as in section 7.20.1.4 of C99.
 */
module IntText {
  import opened Options
  import opened IniText

  const INT_MAX := 0x7fff_ffff
  const INT_MIN := -0x8000_0000
  const LONG_MAX := 0x7fff_ffff_ffff_ffff
  const LONG_MIN := -0x8000_0000_0000_0000

  function UpperChar(c: char): char {
    if 'a' <= c <= 'z' then (c as int - 32) as char else c
  }

  function DigitOf(c: char): int {
    if '0' <= c <= '9' then c as int - '0' as int
    else if 'A' <= UpperChar(c) <= 'Z' then UpperChar(c) as int - 'A' as int + 10
    else -1
  }

  predicate IsDigit(c: char, base: nat) {
    0 <= DigitOf(c) < base
  }

  // ---------------------------------------------------------------- the grammar

  /** A number as `strtol` reads it; only a base of 16 allows a mark. */
  datatype Numeral = Numeral(pad: string, sign: string, mark: string, digits: string)

  /** What stands before the number: nothing, or blanks, a sign and the mark of the base. */
  datatype Prefix = NoPrefix | Prefix(pad: string, sign: string, mark: string)

  datatype IntForm = IntForm(prefix: Prefix, base: nat, num: Numeral, unit: string, trail: string)

  predicate IsSign(s: string) {
    s == "" || s == "+" || s == "-"
  }

  predicate IsMark(s: string, letter: char) {
    |s| == 2 && s[0] == '0' && UpperChar(s[1]) == letter
  }

  ghost predicate IsNumeral(n: Numeral, base: nat) {
    && AllSpaces(n.pad) && IsSign(n.sign) && (n.mark == "" || (base == 16 && IsMark(n.mark, 'X')))
    && n.digits != "" && forall i :: 0 <= i < |n.digits| ==> IsDigit(n.digits[i], base)
  }

  predicate IsUnit(s: string) {
    s == "" || (|s| == 2 && UpperChar(s[0]) in "KMG" && UpperChar(s[1]) == 'B')
  }

  function MarkLetter(base: nat): char {
    if base == 16 then 'X' else if base == 8 then 'O' else 'B'
  }

  /** The texts that stand for an integer. */
  ghost predicate IsIntForm(f: IntForm) {
    && (if f.prefix.NoPrefix? then f.base == 10
        else f.base in {16, 8, 2} && AllSpaces(f.prefix.pad) && IsSign(f.prefix.sign) && IsMark(f.prefix.mark, MarkLetter(f.base)))
    && IsNumeral(f.num, f.base) && IsUnit(f.unit) && AllSpaces(f.trail)
  }

  function NumeralText(n: Numeral): string {
    n.pad + n.sign + n.mark + n.digits
  }

  function PrefixText(p: Prefix): string {
    match p
    case NoPrefix => ""
    case Prefix(pad, sign, mark) => pad + sign + mark
  }

  function FormText(f: IntForm): string {
    PrefixText(f.prefix) + (NumeralText(f.num) + (f.unit + f.trail))
  }

  function Signed(sign: string, n: int): int {
    if sign == "-" then -n else n
  }

  function Magnitude(digits: string, base: nat): int {
    if digits == "" then 0
    else Magnitude(digits[..|digits| - 1], base) * base + DigitOf(digits[|digits| - 1])
  }

  function Factor(unit: string): int {
    if unit == "" then 1
    else if UpperChar(unit[0]) == 'K' then 1024
    else if UpperChar(unit[0]) == 'M' then 1048576
    else 1073741824
  }

  function NumberOf(f: IntForm): int {
    Signed(if f.prefix.NoPrefix? then "" else f.prefix.sign, Signed(f.num.sign, Magnitude(f.num.digits, f.base)))
  }

  /** The exact value that a text stands for. */
  function ValueOf(f: IntForm): int {
    NumberOf(f) * Factor(f.unit)
  }

  // ---------------------------------------------------------------- reading

  function LeadSpaces(s: string): (n: nat)
    ensures n <= |s|
  {
    if s != "" && IsSpace(s[0]) then 1 + LeadSpaces(s[1..]) else 0
  }

  function LeadDigits(s: string, base: nat): (n: nat)
    ensures n <= |s|
  {
    if s != "" && IsDigit(s[0], base) then 1 + LeadDigits(s[1..], base) else 0
  }

  function SignAt(s: string): (n: nat)
    ensures n <= |s| && n <= 1
  {
    if s != "" && (s[0] == '+' || s[0] == '-') then 1 else 0
  }

  /** A mark belongs to the number only when a digit follows it. */
  function MarkAt(s: string, base: nat): (n: nat)
    ensures n <= |s|
  {
    if base == 16 && |s| > 2 && IsMark(s[..2], 'X') && IsDigit(s[2], 16) then 2 else 0
  }

  /** The number at the start of a string, if there is one. */
  function Strtol(s: string, base: nat): Option<Numeral> {
    var a := s[LeadSpaces(s)..];
    var b := a[SignAt(a)..];
    var c := b[MarkAt(b, base)..];
    if LeadDigits(c, base) == 0 then None
    else Some(Numeral(s[..LeadSpaces(s)], a[..SignAt(a)], b[..MarkAt(b, base)], c[..LeadDigits(c, base)]))
  }

  /** Blanks, a sign and the mark of the base, if the string starts with them. */
  function PrefixAt(s: string, base: nat): Option<Prefix> {
    var a := s[LeadSpaces(s)..];
    var b := a[SignAt(a)..];
    if |b| >= 2 && IsMark(b[..2], MarkLetter(base)) then Some(Prefix(s[..LeadSpaces(s)], a[..SignAt(a)], b[..2])) else None
  }

  function Strtol0X(s: string, base: nat): Option<(Prefix, Numeral)> {
    match PrefixAt(s, base)
    case None => None
    case Some(p) =>
      if PrefixText(p) <= s && Strtol(s[|PrefixText(p)|..], base).Some? then Some((p, Strtol(s[|PrefixText(p)|..], base).value))
      else None
  }

  /** Hexadecimal, octal, binary, then decimal: the first that is there. */
  function ReadNumber(s: string): Option<(Prefix, nat, Numeral)> {
    if Strtol0X(s, 16).Some? then Some((Strtol0X(s, 16).value.0, 16, Strtol0X(s, 16).value.1))
    else if Strtol0X(s, 8).Some? then Some((Strtol0X(s, 8).value.0, 8, Strtol0X(s, 8).value.1))
    else if Strtol0X(s, 2).Some? then Some((Strtol0X(s, 2).value.0, 2, Strtol0X(s, 2).value.1))
    else if Strtol(s, 10).Some? then Some((NoPrefix, 10, Strtol(s, 10).value))
    else None
  }

  /** The string is the suffix in any case, and blanks. */
  predicate HasSuffix(s: string, suffix: string) {
    && |s| >= |suffix|
    && (forall i :: 0 <= i < |suffix| ==> UpperChar(s[i]) == UpperChar(suffix[i]))
    && forall i :: |suffix| <= i < |s| ==> IsSpace(s[i])
  }

  /** The unit at the start of what follows the number. */
  function UnitOf(s: string): Option<nat> {
    if HasSuffix(s, "KB") || HasSuffix(s, "MB") || HasSuffix(s, "GB") then Some(2)
    else if HasSuffix(s, "") then Some(0)
    else None
  }

  function NumberText(p: Prefix, n: Numeral): string {
    PrefixText(p) + NumeralText(n)
  }

  function ReadForm(s: string): Option<IntForm> {
    match ReadNumber(s)
    case None => None
    case Some((p, base, n)) =>
      if !(NumberText(p, n) <= s) then None
      else
        var rest := s[|NumberText(p, n)|..];
        match UnitOf(rest)
        case None => None
        case Some(u) => if u <= |rest| then Some(IntForm(p, base, n, rest[..u], rest[u..])) else None
  }

  // ---------------------------------------------------------------- what is read is the grammar

  lemma {:induction false} SpacesLead(pad: string, s: string)
    requires AllSpaces(pad) && (s == "" || !IsSpace(s[0]))
    ensures LeadSpaces(pad + s) == |pad|
  {
    if pad == "" {
      assert pad + s == s;
    } else {
      assert (pad + s)[1..] == pad[1..] + s;
      SpacesLead(pad[1..], s);
    }
  }

  lemma {:induction false} LeadSpacesBlank(s: string)
    ensures AllSpaces(s[..LeadSpaces(s)])
    ensures LeadSpaces(s) < |s| ==> !IsSpace(s[LeadSpaces(s)])
  {
    if s != "" && IsSpace(s[0]) {
      LeadSpacesBlank(s[1..]);
      assert s[..LeadSpaces(s)] == [s[0]] + s[1..][..LeadSpaces(s[1..])];
    }
  }

  ghost predicate AllDigits(s: string, base: nat) {
    forall i :: 0 <= i < |s| ==> IsDigit(s[i], base)
  }

  lemma {:induction false} DigitsLead(digits: string, s: string, base: nat)
    requires AllDigits(digits, base) && (s == "" || !IsDigit(s[0], base))
    ensures LeadDigits(digits + s, base) == |digits|
  {
    if digits == "" {
      assert digits + s == s;
    } else {
      assert (digits + s)[1..] == digits[1..] + s;
      DigitsLead(digits[1..], s, base);
    }
  }

  lemma {:induction false} LeadDigitsAll(s: string, base: nat)
    ensures AllDigits(s[..LeadDigits(s, base)], base)
  {
    if s != "" && IsDigit(s[0], base) {
      LeadDigitsAll(s[1..], base);
      assert s[..LeadDigits(s, base)] == [s[0]] + s[1..][..LeadDigits(s[1..], base)];
    }
  }

  lemma SplitAt(s: string, n: nat)
    requires n <= |s|
    ensures s[..n] + s[n..] == s
  {
  }

  lemma SignIsSign(s: string)
    ensures IsSign(s[..SignAt(s)]) && SignAt(s) <= |s|
  {
  }

  lemma MarkIsMark(s: string, base: nat)
    ensures var m := s[..MarkAt(s, base)];
            m == "" || (base == 16 && IsMark(m, 'X'))
  {
  }

  /** Pieces cut off one after the other make up the string. */
  lemma Rejoin(s: string, i: nat, a: string, j: nat, b: string)
    requires i <= |s| && a == s[i..] && j <= |a| && b == a[j..]
    ensures s == s[..i] + a[..j] + b
  {
  }

  lemma RejoinFour(s: string, i: nat, a: string, j: nat, b: string, k: nat, c: string, l: nat)
    requires i <= |s| && a == s[i..] && j <= |a| && b == a[j..] && k <= |b| && c == b[k..] && l <= |c|
    ensures s == s[..i] + a[..j] + b[..k] + c[..l] + c[l..]
  {
    Rejoin(s, i, a, j, b);
    Rejoin(b, k, c, l, c[l..]);
    FourParts(s[..i] + a[..j], b[..k], c[..l], c[l..]);
  }

  lemma FourParts(a: string, b: string, c: string, d: string)
    ensures a + (b + c + d) == a + b + c + d
  {
  }

  lemma IsStart(t: string, rest: string)
    ensures t <= t + rest && (t + rest)[|t|..] == rest
  {
  }

  lemma MakeNumeral(n: Numeral, base: nat)
    requires AllSpaces(n.pad) && IsSign(n.sign) && AllDigits(n.digits, base) && n.digits != ""
    requires n.mark == "" || (base == 16 && IsMark(n.mark, 'X'))
    ensures IsNumeral(n, base)
  {
  }

  lemma NumeralStarts(n: Numeral, s: string, rest: string)
    requires s == n.pad + n.sign + n.mark + n.digits + rest
    ensures NumeralText(n) <= s
  {
  }

  lemma {:induction false} StrtolSound(s: string, base: nat)
    requires Strtol(s, base).Some?
    ensures IsNumeral(Strtol(s, base).value, base) && NumeralText(Strtol(s, base).value) <= s
  {
    hide IsSpace, IsMark, LeadSpaces, SignAt, MarkAt, LeadDigits, IsSign, IsDigit, AllSpaces, AllDigits, IsNumeral, NumeralText;
    var i := LeadSpaces(s);
    var a := s[i..];
    var j := SignAt(a);
    var b := a[j..];
    var k := MarkAt(b, base);
    var c := b[k..];
    var l := LeadDigits(c, base);
    var n := Numeral(s[..i], a[..j], b[..k], c[..l]);
    LeadSpacesBlank(s);
    SignIsSign(a);
    MarkIsMark(b, base);
    LeadDigitsAll(c, base);
    MakeNumeral(n, base);
    RejoinFour(s, i, a, j, b, k, c, l);
    NumeralStarts(n, s, c[l..]);
  }

  /** What may follow a number: a unit and blanks, or blanks. */
  ghost predicate Stops(rest: string) {
    rest == "" || IsSpace(rest[0]) || UpperChar(rest[0]) in "KMG"
  }

  lemma Nested(n: Numeral, rest: string)
    ensures n.pad + (n.sign + (n.mark + (n.digits + rest))) == NumeralText(n) + rest
  {
    Associate(n.pad, n.sign, n.mark + (n.digits + rest));
    Associate(n.pad + n.sign, n.mark, n.digits + rest);
    Associate(n.pad + n.sign + n.mark, n.digits, rest);
  }

  lemma Peel(front: string, rest: string)
    ensures (front + rest)[..|front|] == front && (front + rest)[|front|..] == rest
  {
  }

  /** The string starts with neither a blank nor a sign. */
  ghost predicate PlainStart(s: string) {
    s != "" && !IsSpace(s[0]) && s[0] != '+' && s[0] != '-'
  }

  lemma DigitsPlain(digits: string, base: nat, rest: string)
    requires digits != "" && AllDigits(digits, base)
    ensures PlainStart(digits + rest)
  {
    assert IsDigit(digits[0], base);
    assert (digits + rest)[0] == digits[0];
  }

  lemma MarkPlain(mark: string, rest: string)
    requires if mark == "" then PlainStart(rest) else mark[0] == '0'
    ensures PlainStart(mark + rest)
  {
    assert mark != "" ==> (mark + rest)[0] == '0';
    assert mark == "" ==> mark + rest == rest;
  }

  lemma SignLeads(sign: string, s: string)
    requires IsSign(sign) && PlainStart(s)
    ensures SignAt(sign + s) == |sign| && sign + s != "" && !IsSpace((sign + s)[0])
  {
    assert sign == "" ==> sign + s == s;
    assert sign != "" ==> (sign + s)[0] == sign[0];
  }

  lemma NumeralParts(n: Numeral, base: nat)
    requires IsNumeral(n, base)
    ensures AllSpaces(n.pad) && IsSign(n.sign) && n.digits != "" && AllDigits(n.digits, base)
    ensures n.mark == "" || (base == 16 && IsMark(n.mark, 'X') && n.mark[0] == '0')
  {
  }

  lemma {:induction false} StrtolComplete(n: Numeral, base: nat, rest: string)
    requires IsNumeral(n, base) && base <= 16 && Stops(rest)
    ensures Strtol(NumeralText(n) + rest, base) == Some(n)
  {
    hide IsSpace, IsDigit, UpperChar, DigitOf, LeadSpaces, LeadDigits, SignAt, MarkAt, IsMark, IsSign, AllSpaces, AllDigits, Stops, IsNumeral, NumeralText, PlainStart;
    NumeralParts(n, base);
    var c := n.digits + rest;
    var b := n.mark + c;
    var a := n.sign + b;
    Nested(n, rest);
    StopsDigits(rest, base);
    DigitsPlain(n.digits, base, rest);
    MarkPlain(n.mark, c);
    DigitsLead(n.digits, rest, base);
    MarkLeads(n.mark, n.digits, rest, base);
    SignLeads(n.sign, b);
    SpacesLead(n.pad, a);
    Peel(n.digits, rest);
    Peel(n.mark, c);
    Peel(n.sign, b);
    Peel(n.pad, a);
  }

  lemma NotAlso(rest: string)
    requires Stops(rest) && rest != ""
    ensures !IsDigit(rest[0], 16) && UpperChar(rest[0]) !in "XOB"
  {
    var c := rest[0];
    assert UpperChar(c) in "KMG" ==> UpperChar(c) == 'K' || UpperChar(c) == 'M' || UpperChar(c) == 'G';
  }

  lemma StopsDigits(rest: string, base: nat)
    requires Stops(rest) && base <= 16
    ensures rest == "" || !IsDigit(rest[0], base)
  {
    if rest != "" { NotAlso(rest); }
  }

  lemma MarkLeads(mark: string, digits: string, rest: string, base: nat)
    requires mark == "" || (base == 16 && IsMark(mark, 'X'))
    requires digits != "" && AllDigits(digits, base) && base <= 16 && Stops(rest)
    ensures MarkAt(mark + (digits + rest), base) == |mark|
  {
    hide IsDigit, UpperChar;
    var c := digits + rest;
    assert IsDigit(digits[0], base) && c[0] == digits[0];
    if mark == "" {
      assert mark + c == c;
      NoMark(digits, rest, base);
    } else {
      Peel(mark, c);
      assert (mark + c)[2] == c[0];
    }
  }

  /** Digits do not start with the mark of a base. */
  lemma NoMark(digits: string, rest: string, base: nat)
    requires digits != "" && AllDigits(digits, base) && base <= 16 && Stops(rest)
    ensures |digits + rest| >= 2 ==> !IsMark((digits + rest)[..2], 'X')
    ensures |digits + rest| >= 2 && base == 10 ==> !IsMark((digits + rest)[..2], 'O') && !IsMark((digits + rest)[..2], 'B')
  {
    if |digits| > 1 {
      assert IsDigit(digits[1], base) && (digits + rest)[1] == digits[1];
    } else if rest != "" {
      NotAlso(rest);
      assert (digits + rest)[1] == rest[0];
      assert 'X' in "XOB" && 'O' in "XOB" && 'B' in "XOB";
    }
  }

  lemma {:induction false} PrefixSound(s: string, base: nat)
    requires PrefixAt(s, base).Some?
    ensures var p := PrefixAt(s, base).value;
            p.Prefix? && AllSpaces(p.pad) && IsSign(p.sign) && IsMark(p.mark, MarkLetter(base)) && PrefixText(p) <= s
  {
    hide IsSpace, IsMark, LeadSpaces, SignAt, IsSign, AllSpaces;
    var a := s[LeadSpaces(s)..];
    var b := a[SignAt(a)..];
    LeadSpacesBlank(s);
    SignIsSign(a);
    Rejoin(s, LeadSpaces(s), a, SignAt(a), b);
    SplitAt(b, 2);
    var p := PrefixAt(s, base).value;
    assert s == PrefixText(p) + b[2..] by {
      assert s[..LeadSpaces(s)] + a[..SignAt(a)] + (b[..2] + b[2..]) == s[..LeadSpaces(s)] + a[..SignAt(a)] + b[..2] + b[2..];
    }
    IsStart(PrefixText(p), b[2..]);
  }

  lemma {:induction false} PrefixComplete(p: Prefix, base: nat, rest: string)
    requires p.Prefix? && AllSpaces(p.pad) && IsSign(p.sign) && |p.mark| == 2 && p.mark[0] == '0'
    ensures PrefixAt(PrefixText(p) + rest, base) == if IsMark(p.mark, MarkLetter(base)) then Some(p) else None
  {
    hide IsSpace, LeadSpaces, SignAt, IsMark, IsSign, AllSpaces, MarkLetter, PlainStart;
    var b := p.mark + rest;
    var a := p.sign + b;
    Associate(p.pad + p.sign, p.mark, rest);
    Associate(p.pad, p.sign, b);
    MarkPlain(p.mark, rest);
    SignLeads(p.sign, b);
    SpacesLead(p.pad, a);
    Peel(p.mark, rest);
    Peel(p.sign, b);
    Peel(p.pad, a);
  }

  /** A number without a prefix is not taken for one with a prefix. */
  lemma {:induction false} NoPrefixRead(n: Numeral, rest: string, base: nat)
    requires IsNumeral(n, 10) && Stops(rest) && base in {16, 8, 2}
    ensures PrefixAt(NumeralText(n) + rest, base) == None
  {
    hide IsSpace, LeadSpaces, SignAt, IsMark, IsSign, AllSpaces, IsNumeral, AllDigits, Stops, PlainStart, NumeralText;
    NumeralParts(n, 10);
    var c := n.digits + rest;
    var a := n.sign + c;
    Nested(n, rest);
    assert n.mark + c == c;
    DigitsPlain(n.digits, 10, rest);
    NoMark(n.digits, rest, 10);
    SignLeads(n.sign, c);
    SpacesLead(n.pad, a);
    Peel(n.sign, c);
    Peel(n.pad, a);
  }

  lemma {:induction false} Strtol0XSound(s: string, base: nat)
    requires Strtol0X(s, base).Some?
    ensures var (p, n) := Strtol0X(s, base).value;
            && p.Prefix? && AllSpaces(p.pad) && IsSign(p.sign) && IsMark(p.mark, MarkLetter(base))
            && IsNumeral(n, base) && NumberText(p, n) <= s
  {
    hide Strtol, IsNumeral, IsSign, IsMark, NumeralText, PrefixText, AllSpaces;
    PrefixSound(s, base);
    var (p, n) := Strtol0X(s, base).value;
    var rest := s[|PrefixText(p)|..];
    StrtolSound(rest, base);
    assert s == PrefixText(p) + rest;
    assert rest == NumeralText(n) + rest[|NumeralText(n)|..];
    assert s == NumberText(p, n) + rest[|NumeralText(n)|..];
  }

  lemma {:induction false} Strtol0XComplete(p: Prefix, base: nat, n: Numeral, rest: string, other: nat)
    requires p.Prefix? && AllSpaces(p.pad) && IsSign(p.sign) && IsMark(p.mark, MarkLetter(base))
    requires base in {16, 8, 2} && other in {16, 8, 2} && IsNumeral(n, base) && Stops(rest)
    ensures Strtol0X(NumberText(p, n) + rest, other) == if other == base then Some((p, n)) else None
  {
    hide Strtol, IsNumeral, IsSign, NumeralText, PrefixText, AllSpaces, PrefixAt, Stops;
    var inner := NumeralText(n) + rest;
    var s := NumberText(p, n) + rest;
    assert s == PrefixText(p) + inner;
    PrefixComplete(p, other, inner);
    assert s[|PrefixText(p)|..] == inner;
    StrtolComplete(n, base, rest);
  }

  /** A text is read as a form only if it is the text of that form. */
  lemma {:induction false} ReadFormSound(s: string)
    requires ReadForm(s).Some?
    ensures IsIntForm(ReadForm(s).value) && FormText(ReadForm(s).value) == s
  {
    hide ReadNumber, IsNumeral, IsSign, IsMark, NumeralText, PrefixText, UnitOf;
    ReadNumberSound(s);
    var f := ReadForm(s).value;
    var rest := s[|NumberText(f.prefix, f.num)|..];
    UnitSound(rest);
    SplitAt(rest, |f.unit|);
    assert s == NumberText(f.prefix, f.num) + rest;
    Associate(PrefixText(f.prefix), NumeralText(f.num), rest);
  }

  lemma Associate(a: string, b: string, c: string)
    ensures a + b + c == a + (b + c)
  {
  }

  lemma {:induction false} ReadNumberSound(s: string)
    requires ReadNumber(s).Some?
    ensures var (p, base, n) := ReadNumber(s).value;
            && (if p.NoPrefix? then base == 10
                else base in {16, 8, 2} && AllSpaces(p.pad) && IsSign(p.sign) && IsMark(p.mark, MarkLetter(base)))
            && IsNumeral(n, base) && NumberText(p, n) <= s
  {
    hide Strtol, Strtol0X, IsNumeral, IsSign, IsMark, NumeralText, AllSpaces;
    if Strtol0X(s, 16).Some? { Strtol0XSound(s, 16); }
    else if Strtol0X(s, 8).Some? { Strtol0XSound(s, 8); }
    else if Strtol0X(s, 2).Some? { Strtol0XSound(s, 2); }
    else {
      StrtolSound(s, 10);
      assert NumberText(NoPrefix, Strtol(s, 10).value) == NumeralText(Strtol(s, 10).value);
    }
  }

  lemma UnitSound(s: string)
    requires UnitOf(s).Some?
    ensures var u := UnitOf(s).value;
            u <= |s| && IsUnit(s[..u]) && AllSpaces(s[u..])
  {
  }

  lemma {:induction false} UnitComplete(unit: string, trail: string)
    requires IsUnit(unit) && AllSpaces(trail)
    ensures Stops(unit + trail) && UnitOf(unit + trail) == Some(|unit|)
  {
    hide IsSpace, HasSuffix;
    var s := unit + trail;
    if unit == "" {
      assert s == trail;
      BlankSuffix(s);
    } else {
      assert s[0] == unit[0];
      var c := UpperChar(unit[0]);
      assert c == 'K' || c == 'M' || c == 'G' by { assert c in "KMG"; }
      UnitSuffix(unit, trail, [c, 'B']);
      assert [c, 'B'] == "KB" || [c, 'B'] == "MB" || [c, 'B'] == "GB";
    }
  }

  lemma BlankSuffix(s: string)
    requires AllSpaces(s)
    ensures HasSuffix(s, "") && !HasSuffix(s, "KB") && !HasSuffix(s, "MB") && !HasSuffix(s, "GB")
    ensures s == "" || IsSpace(s[0])
  {
    assert s != "" ==> IsSpace(s[0]);
    assert "KB"[0] == 'K' && "MB"[0] == 'M' && "GB"[0] == 'G';
  }

  lemma UnitSuffix(unit: string, trail: string, suffix: string)
    requires |unit| == |suffix| == 2 && AllSpaces(trail)
    requires UpperChar(unit[0]) == UpperChar(suffix[0]) && UpperChar(unit[1]) == UpperChar(suffix[1])
    ensures HasSuffix(unit + trail, suffix)
  {
    hide IsSpace, UpperChar;
    var s := unit + trail;
    assert s[0] == unit[0] && s[1] == unit[1];
    assert forall i :: 2 <= i < |s| ==> s[i] == trail[i - 2];
  }

  /** Every form is read back from its text: the grammar is unambiguous. */
  lemma {:induction false} ReadFormComplete(f: IntForm)
    requires IsIntForm(f)
    ensures ReadForm(FormText(f)) == Some(f)
  {
    hide ReadNumber, NumeralText, PrefixText, UnitOf, IsIntForm, Stops, AllSpaces, IsUnit;
    FormParts(f);
    var front, rest := NumberText(f.prefix, f.num), f.unit + f.trail;
    UnitComplete(f.unit, f.trail);
    Associate(PrefixText(f.prefix), NumeralText(f.num), rest);
    ReadNumberComplete(f, rest);
    Peel(front, rest);
    Peel(f.unit, f.trail);
  }

  lemma FormParts(f: IntForm)
    requires IsIntForm(f)
    ensures IsUnit(f.unit) && AllSpaces(f.trail) && IsNumeral(f.num, f.base)
  {
  }

  lemma {:induction false} ReadNumberComplete(f: IntForm, rest: string)
    requires IsIntForm(f) && Stops(rest)
    ensures ReadNumber(NumberText(f.prefix, f.num) + rest) == Some((f.prefix, f.base, f.num))
  {
    hide Strtol, NumeralText, IsNumeral, IsSign, IsMark, Stops, PrefixAt;
    if f.prefix.NoPrefix? {
      assert NumberText(f.prefix, f.num) == NumeralText(f.num);
      NoPrefixRead(f.num, rest, 16);
      NoPrefixRead(f.num, rest, 8);
      NoPrefixRead(f.num, rest, 2);
      StrtolComplete(f.num, 10, rest);
    } else {
      Strtol0XComplete(f.prefix, f.base, f.num, rest, 16);
      Strtol0XComplete(f.prefix, f.base, f.num, rest, 8);
      Strtol0XComplete(f.prefix, f.base, f.num, rest, 2);
    }
  }
}
