/**
 The integer argument of the command line parser (src/etc/etc_argtable2.c, `struct arg_int`
 and its scan and check functions).
 */
module ArgInts {
  import opened Options
  import opened IniText
  import opened IntText

  const EMINCOUNT := 11
  const EMAXCOUNT := 12
  const EBADINT := 13
  const EOVERFLOW := 14

  // ---------------------------------------------------------------- machine numbers

  /** What `strtol` makes of a number that a long cannot hold. */
  function Saturated(n: int): int {
    if n > LONG_MAX then LONG_MAX else if n < LONG_MIN then LONG_MIN else n
  }

  function NumeralValue(n: Numeral, base: nat): int {
    Saturated(Signed(n.sign, Magnitude(n.digits, base)))
  }

  function OuterSign(p: Prefix): string {
    if p.NoPrefix? then "" else p.sign
  }

  predicate FitsInt(n: int) {
    INT_MIN <= n <= INT_MAX
  }

  /** The verdict on a text: an integer form whose exact value fits an int. */
  function Verdict(text: string): (code: int) {
    match ReadForm(text)
    case None => EBADINT
    case Some(f) => if FitsInt(ValueOf(f)) then 0 else EOVERFLOW
  }

  /** The verdict of the scanner in a state where `count` of `maxcount` values are there. */
  function ScanCode(count: nat, maxcount: int, argval: Option<string>): int {
    if count == maxcount then EMAXCOUNT
    else if argval.Some? then Verdict(argval.value)
    else 0
  }

  /** A text is accepted exactly when it is the text of a form whose value fits; it is an
      overflow exactly when it is the text of one whose value does not. */
  lemma {:induction false} VerdictExactly(text: string)
    ensures Verdict(text) == 0 <==> exists f :: IsIntForm(f) && FormText(f) == text && FitsInt(ValueOf(f))
    ensures Verdict(text) == EOVERFLOW <==> exists f :: IsIntForm(f) && FormText(f) == text && !FitsInt(ValueOf(f))
    ensures Verdict(text) == EBADINT <==> !exists f :: IsIntForm(f) && FormText(f) == text
  {
    hide ReadForm, IsIntForm, FormText, ValueOf;
    forall f | IsIntForm(f) && FormText(f) == text ensures ReadForm(text) == Some(f) {
      ReadFormComplete(f);
    }
    if ReadForm(text).Some? {
      ReadFormSound(text);
    }
  }

  /** The checks before a multiplication decide on the exact product, and a saturated number
      is out of range for every unit. */
  lemma {:induction false} ChecksDecide(f: IntForm, val: int)
    requires val == Signed(OuterSign(f.prefix), NumeralValue(f.num, f.base))
    ensures var top := if f.unit == "" then INT_MAX else INT_MAX / Factor(f.unit);
            var low := if f.unit == "" then INT_MIN else INT_MIN / Factor(f.unit);
            && (FitsInt(ValueOf(f)) <==> low <= val <= top)
            && (low <= val <= top ==> FitsInt(val) && val * Factor(f.unit) == ValueOf(f))
  {
    var exact := NumberOf(f);
    assert val == exact || (val > INT_MAX && exact > INT_MAX) || (val < INT_MIN && exact < INT_MIN) by {
      hide Magnitude;
    }
    if f.unit == "" {
    } else if UpperChar(f.unit[0]) == 'K' {
      assert ValueOf(f) == exact * 1024;
    } else if UpperChar(f.unit[0]) == 'M' {
      assert ValueOf(f) == exact * 1048576;
    } else {
      assert ValueOf(f) == exact * 1073741824;
    }
  }

  // ---------------------------------------------------------------- scanning

  method SkipBlanks(s: string) returns (i: nat)
    ensures i == LeadSpaces(s)
  {
    i := 0;
    while i < |s| && IsSpace(s[i])
      invariant i <= |s| && LeadSpaces(s) == i + LeadSpaces(s[i..])
    {
      assert s[i..][1..] == s[i + 1..];
      i := i + 1;
    }
  }

  /** A number with the given mark; `end` is where it ends, or 0. */
  method Strtol0XInt(s: string, base: nat) returns (val: int, end: nat)
    requires base in {16, 8, 2}
    ensures match Strtol0X(s, base)
            case None => end == 0
            case Some((p, n)) => end == |NumberText(p, n)| > 0 && val == Signed(OuterSign(p), NumeralValue(n, base))
  {
    hide Strtol, IsSpace, NumeralValue, NumeralText, AllSpaces, LeadSpaces;
    var i := SkipBlanks(s);
    ghost var a := s[i..];
    var negative := i < |s| && s[i] == '-';
    if i < |s| && (s[i] == '+' || s[i] == '-') {
      i := i + 1;
    }
    ghost var b := s[i..];
    assert b == a[SignAt(a)..];
    if !(i < |s| && s[i] == '0') { return 0, 0; }
    if !(i + 1 < |s| && UpperChar(s[i + 1]) == MarkLetter(base)) { return 0, 0; }
    assert s[i..][..2] == b[..2] && IsMark(b[..2], MarkLetter(base));
    PrefixSound(s, base);
    ghost var p := PrefixAt(s, base).value;
    assert |PrefixText(p)| == i + 2;
    var rest := s[i + 2..];
    var number := Strtol(rest, base);
    if number == None { return 0, 0; }
    val := NumeralValue(number.value, base);
    val := if negative then -val else val;
    end := i + 2 + |NumeralText(number.value)|;
  }

  method DetectSuffix(s: string, suffix: string) returns (found: bool)
    ensures found == HasSuffix(s, suffix)
  {
    var i := 0;
    while i < |s| && i < |suffix| && UpperChar(s[i]) == UpperChar(suffix[i])
      invariant 0 <= i <= |s| && i <= |suffix|
      invariant forall j :: 0 <= j < i ==> UpperChar(s[j]) == UpperChar(suffix[j])
    {
      i := i + 1;
    }
    if i < |suffix| { return false; }
    while i < |s| && IsSpace(s[i])
      invariant |suffix| <= i <= |s|
      invariant forall j :: |suffix| <= j < i ==> IsSpace(s[j])
    {
      i := i + 1;
    }
    found := i == |s|;
  }

  /** The number at the start of the argument, in the first format that fits; `end` is 0 when
      none does. */
  method ScanNumber(s: string) returns (val: int, end: nat)
    ensures match ReadNumber(s)
            case None => end == 0
            case Some((p, base, n)) => end == |NumberText(p, n)| > 0 && val == Signed(OuterSign(p), NumeralValue(n, base))
  {
    hide Strtol0X, Strtol, Magnitude, NumeralText;
    val, end := Strtol0XInt(s, 16);
    if end == 0 {
      val, end := Strtol0XInt(s, 8);
      if end == 0 {
        val, end := Strtol0XInt(s, 2);
        if end == 0 {
          var number := Strtol(s, 10);
          if number.Some? {
            val := NumeralValue(number.value, 10);
            end := |NumeralText(number.value)|;
            StrtolSound(s, 10);
            DigitsThere(number.value, 10);
          }
        }
      }
    }
  }

  lemma DigitsThere(n: Numeral, base: nat)
    requires IsNumeral(n, base)
    ensures |NumeralText(n)| > 0
  {
  }

  /** The verdict and, when the text is accepted, the value. */
  method ScanText(s: string) returns (code: int, val: int)
    ensures code == Verdict(s)
    ensures code == 0 ==> val == ValueOf(ReadForm(s).value)
  {
    hide ReadNumber, NumeralValue, NumberText, ValueOf, HasSuffix, Magnitude;
    var end: nat;
    val, end := ScanNumber(s);
    if end == 0 { return EBADINT, 0; }
    ghost var (p, base, n) := ReadNumber(s).value;
    ReadNumberSound(s);
    var rest := s[end..];
    code := if val > INT_MAX || val < INT_MIN then EOVERFLOW else 0;
    var kilo := DetectSuffix(rest, "KB");
    var mega := DetectSuffix(rest, "MB");
    var giga := DetectSuffix(rest, "GB");
    var none := DetectSuffix(rest, "");
    UnitFactor(rest);
    if kilo || mega || giga || none {
      ChecksDecide(ReadForm(s).value, val);
    }
    if kilo {
      if val > INT_MAX / 1024 || val < INT_MIN / 1024 { code := EOVERFLOW; } else { val := val * 1024; }
    } else if mega {
      if val > INT_MAX / 1048576 || val < INT_MIN / 1048576 { code := EOVERFLOW; } else { val := val * 1048576; }
    } else if giga {
      if val > INT_MAX / 1073741824 || val < INT_MIN / 1073741824 { code := EOVERFLOW; } else { val := val * 1073741824; }
    } else if !none {
      code := EBADINT;
    }
  }

  lemma UnitFactor(rest: string)
    ensures HasSuffix(rest, "KB") ==> UnitOf(rest) == Some(2) && |rest| >= 2 && Factor(rest[..2]) == 1024
    ensures HasSuffix(rest, "MB") ==> UnitOf(rest) == Some(2) && |rest| >= 2 && Factor(rest[..2]) == 1048576
    ensures HasSuffix(rest, "GB") ==> UnitOf(rest) == Some(2) && |rest| >= 2 && Factor(rest[..2]) == 1073741824
  {
    if HasSuffix(rest, "KB") || HasSuffix(rest, "MB") || HasSuffix(rest, "GB") {
      assert rest[..2][0] == rest[0];
    }
  }

  class ArgInt {
    const mincount: int
    const maxcount: int
    const ival: array<int>
    var count: int

    ghost predicate Valid()
      reads this
    {
      0 <= count <= maxcount == ival.Length && mincount <= maxcount
    }

    /** The maximum is never below the minimum. */
    constructor (mincount: int, maxcount: int)
      requires 0 <= maxcount || 0 <= mincount
      ensures Valid() && fresh(ival) && count == 0
      ensures this.mincount == mincount && this.maxcount == if maxcount < mincount then mincount else maxcount
    {
      var most := if maxcount < mincount then mincount else maxcount;
      this.mincount := mincount;
      this.maxcount := most;
      ival := new int[most];
      count := 0;
    }

    method Reset()
      requires Valid()
      modifies this`count
      ensures Valid() && count == 0
    {
      count := 0;
    }

    /** An accepted text adds its value; a missing optional text is counted and leaves the
        value that was there; nothing else changes anything. */
    method Scan(argval: Option<string>) returns (code: int)
      requires Valid()
      modifies this`count, ival
      ensures Valid() && code == ScanCode(old(count), maxcount, argval)
      ensures count == old(count) + if code == 0 then 1 else 0
      ensures ival[..] == if code == 0 && argval.Some?
                          then old(ival[..])[old(count) := ValueOf(ReadForm(argval.value).value)]
                          else old(ival[..])
    {
      hide Verdict, ValueOf, ReadForm;
      if count == maxcount { return EMAXCOUNT; }
      if argval == None {
        count := count + 1;
        return 0;
      }
      var val: int;
      code, val := ScanText(argval.value);
      if code == 0 {
        ival[count] := val;
        count := count + 1;
      }
    }

    method Check() returns (code: int)
      requires Valid()
      ensures code == if count < mincount then EMINCOUNT else 0
      ensures code == 0 <==> mincount <= count <= maxcount
    {
      code := if count < mincount then EMINCOUNT else 0;
    }
  }
}
