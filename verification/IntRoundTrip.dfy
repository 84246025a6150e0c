/**
 Scanning a written integer gives that integer (src/etc/etc_argtable2.c, `scanfn_int`), for
 every format, unit and spelling.
 */
module IntRoundTrip {
  import opened Options
  import opened IniText
  import opened IntText
  import opened ArgInts

  // ---------------------------------------------------------------- writing

  function Figures(upper: bool): (t: string)
    ensures |t| == 16
  {
    if upper then "0123456789ABCDEF" else "0123456789abcdef"
  }

  /** A number in a base, by repeated division. */
  function Written(n: nat, base: nat, upper: bool): (s: string)
    requires 2 <= base <= 16
    ensures s != ""
  {
    if n < base then [Figures(upper)[n]] else Written(n / base, base, upper) + [Figures(upper)[n % base]]
  }

  function Zeros(n: nat): string {
    seq(n, _ => '0')
  }

  function Pow(b: int, e: nat): int {
    if e == 0 then 1 else b * Pow(b, e - 1)
  }

  predicate IsPrefix(s: string) {
    s in ["", "0x", "0X", "0o", "0O", "0b", "0B"]
  }

  function BaseOf(prefix: string): nat {
    if prefix == "" then 10
    else if prefix == "0x" || prefix == "0X" then 16
    else if prefix == "0o" || prefix == "0O" then 8
    else 2
  }

  /** The power of 1024 that a unit stands for, if it is one. */
  function Thousands(unit: string): Option<nat> {
    if unit == "" then Some(0)
    else if unit in ["KB", "Kb", "kB", "kb"] then Some(1)
    else if unit in ["MB", "Mb", "mB", "mb"] then Some(2)
    else if unit in ["GB", "Gb", "gB", "gb"] then Some(3)
    else None
  }

  // ---------------------------------------------------------------- digits

  lemma FigureIs(k: nat, upper: bool)
    requires k < 16
    ensures DigitOf(Figures(upper)[k]) == k
  {
  }

  lemma MagnitudeOf(digits: string, base: nat, last: char)
    ensures Magnitude(digits + [last], base) == Magnitude(digits, base) * base + DigitOf(last)
  {
    assert (digits + [last])[..|digits|] == digits;
  }

  /** The last digit and what stands before it. */
  lemma LastDigit(n: nat, base: nat, upper: bool) returns (q: nat, r: nat)
    requires 2 <= base <= n && base <= 16
    ensures n == q * base + r && r < base && q < n
    ensures Written(n, base, upper) == Written(q, base, upper) + [Figures(upper)[r]]
  {
    q, r := n / base, n % base;
  }

  lemma AppendDigit(s: string, c: char, base: nat)
    requires AllDigits(s, base) && IsDigit(c, base)
    ensures AllDigits(s + [c], base)
  {
  }

  lemma FigureDigit(k: nat, base: nat, upper: bool)
    requires k < base <= 16
    ensures IsDigit(Figures(upper)[k], base) && DigitOf(Figures(upper)[k]) == k
  {
    hide DigitOf, Figures;
    FigureIs(k, upper);
  }

  lemma {:induction false} WrittenMeans(n: nat, base: nat, upper: bool)
    requires 2 <= base <= 16
    ensures AllDigits(Written(n, base, upper), base) && Magnitude(Written(n, base, upper), base) == n
    decreases n
  {
    hide DigitOf, Figures, AllDigits, IsDigit, Magnitude, Written;
    NoDigits(base);
    if n < base {
      OneDigit(n, base, upper);
      FigureDigit(n, base, upper);
      var last := Figures(upper)[n];
      MagnitudeOf("", base, last);
      AppendDigit("", last, base);
      assert "" + [last] == [last];
    } else {
      var q, r := LastDigit(n, base, upper);
      WrittenMeans(q, base, upper);
      FigureDigit(r, base, upper);
      MagnitudeOf(Written(q, base, upper), base, Figures(upper)[r]);
      AppendDigit(Written(q, base, upper), Figures(upper)[r], base);
    }
  }

  lemma OneDigit(n: nat, base: nat, upper: bool)
    requires n < base && 2 <= base <= 16
    ensures Written(n, base, upper) == [Figures(upper)[n]]
  {
  }

  lemma NoDigits(base: nat)
    ensures AllDigits("", base) && Magnitude("", base) == 0
  {
  }

  /** Zeros in front change nothing. */
  lemma {:induction false} ZerosMean(zeros: nat, digits: string, base: nat)
    requires 2 <= base <= 16 && AllDigits(digits, base)
    ensures AllDigits(Zeros(zeros) + digits, base) && Magnitude(Zeros(zeros) + digits, base) == Magnitude(digits, base)
    decreases zeros + |digits|
  {
    var s := Zeros(zeros) + digits;
    assert forall i :: 0 <= i < |s| ==> if i < zeros then s[i] == '0' else s[i] == digits[i - zeros];
    if digits != "" {
      var n := |digits| - 1;
      ZerosMean(zeros, digits[..n], base);
      assert s == Zeros(zeros) + digits[..n] + [digits[n]];
      MagnitudeOf(Zeros(zeros) + digits[..n], base, digits[n]);
    } else if zeros > 0 {
      ZerosMean(zeros - 1, "", base);
      assert s == Zeros(zeros - 1) + "" + ['0'];
      MagnitudeOf(Zeros(zeros - 1) + "", base, '0');
    }
  }

  // ---------------------------------------------------------------- scanning what was written

  predicate IsSignText(s: string) {
    s in ["", "+", "-"]
  }

  /** Between a prefix and the digits there may be a second sign. */
  function FormOf(pad: string, sign: string, prefix: string, inner: string, digits: string, unit: string, trail: string): IntForm {
    if prefix == "" then IntForm(NoPrefix, 10, Numeral(pad, sign, "", digits), unit, trail)
    else IntForm(Prefix(pad, sign, prefix), BaseOf(prefix), Numeral("", inner, "", digits), unit, trail)
  }

  lemma {:induction false} FormTextIs(pad: string, sign: string, prefix: string, inner: string, digits: string, unit: string, trail: string)
    requires prefix == "" ==> inner == ""
    ensures FormText(FormOf(pad, sign, prefix, inner, digits, unit, trail)) == pad + sign + prefix + inner + digits + unit + trail
  {
    var head := pad + sign + prefix + inner + digits;
    Associate(head, unit, trail);
    if prefix == "" {
      assert "" + (pad + sign + "" + digits) == head;
      Associate("", pad + sign + "" + digits, unit + trail);
    } else {
      assert "" + inner + "" + digits == inner + digits;
      Associate(pad + sign + prefix, inner, digits);
      Associate(pad + sign + prefix, inner + digits, unit + trail);
    }
  }

  lemma {:induction false} FormOfIs(pad: string, sign: string, prefix: string, inner: string, digits: string, unit: string, trail: string)
    requires AllSpaces(pad) && AllSpaces(trail) && IsPrefix(prefix) && Thousands(unit).Some?
    requires IsSignText(sign) && IsSignText(inner) && (prefix == "" ==> inner == "")
    requires digits != "" && AllDigits(digits, BaseOf(prefix))
    ensures var f := FormOf(pad, sign, prefix, inner, digits, unit, trail);
            && IsIntForm(f) && FormText(f) == pad + sign + prefix + inner + digits + unit + trail && f.base == BaseOf(prefix)
            && ValueOf(f) == Times(sign, Times(inner, Magnitude(digits, f.base))) * Factor(unit)
  {
    hide Magnitude, Factor, IsUnit, AllSpaces, AllDigits, Thousands, FormText;
    var f := FormOf(pad, sign, prefix, inner, digits, unit, trail);
    FormTextIs(pad, sign, prefix, inner, digits, unit, trail);
    UnitIs(unit);
    NoBlanks();
    MakeNumeral(f.num, f.base);
  }

  function Times(sign: string, n: int): int {
    if sign == "-" then 0 - n else n
  }

  lemma NoBlanks()
    ensures AllSpaces("")
  {
  }

  lemma UnitIs(unit: string)
    requires Thousands(unit).Some?
    ensures IsUnit(unit) && Factor(unit) == Pow(1024, Thousands(unit).value)
  {
    assert "KMG"[0] == 'K' && "KMG"[1] == 'M' && "KMG"[2] == 'G';
    assert Pow(1024, 1) == 1024 && Pow(1024, 2) == 1048576 && Pow(1024, 3) == 1073741824;
  }

  lemma IntRange()
    ensures INT_MAX == Pow(2, 31) - 1 && INT_MIN == -Pow(2, 31)
  {
    assert Pow(2, 8) == 256;
    assert Pow(2, 16) == 65536;
    assert Pow(2, 24) == 16777216;
  }

  /** Blanks, a sign, a prefix, after which there may be another sign, the number written in
      its base with any zeros in front, a unit in any spelling and blanks: the scanner takes
      exactly the number's value, or says that it overflows. */
  lemma {:induction false} ScansWhatIsWritten(pad: string, sign: string, prefix: string, inner: string, zeros: nat, n: nat, upper: bool, unit: string, trail: string)
    requires AllSpaces(pad) && AllSpaces(trail) && IsPrefix(prefix) && Thousands(unit).Some?
    requires IsSignText(sign) && IsSignText(inner) && (prefix == "" ==> inner == "")
    ensures var text := pad + sign + prefix + inner + (Zeros(zeros) + Written(n, BaseOf(prefix), upper)) + unit + trail;
            var value := Times(sign, Times(inner, n)) * Pow(1024, Thousands(unit).value);
            && Verdict(text) == (if -Pow(2, 31) <= value < Pow(2, 31) then 0 else EOVERFLOW)
            && ReadForm(text).Some? && ValueOf(ReadForm(text).value) == value
  {
    hide Magnitude, Factor, Written, Pow, ReadForm, FormText, IsIntForm, ValueOf, Zeros, Times;
    var base := BaseOf(prefix);
    var digits := Zeros(zeros) + Written(n, base, upper);
    WrittenMeans(n, base, upper);
    ZerosMean(zeros, Written(n, base, upper), base);
    FormOfIs(pad, sign, prefix, inner, digits, unit, trail);
    UnitIs(unit);
    ReadFormComplete(FormOf(pad, sign, prefix, inner, digits, unit, trail));
    IntRange();
  }

  /** Scanning a written number into an argument stores it. */
  method ScanNumberText(arg: ArgInt, n: int) returns (code: int)
    requires arg.Valid() && arg.count < arg.maxcount
    modifies arg, arg.ival
    ensures code == if -Pow(2, 31) <= n < Pow(2, 31) then 0 else EOVERFLOW
    ensures code == 0 ==> arg.count == old(arg.count) + 1 && arg.ival[old(arg.count)] == n
    ensures code != 0 ==> arg.count == old(arg.count) && arg.ival[..] == old(arg.ival[..])
  {
    hide Verdict, Written, ReadForm, ValueOf, Pow;
    var sign, size: nat := if n < 0 then "-" else "", if n < 0 then 0 - n else n;
    var text := sign + Written(size, 10, false);
    ScansWhatIsWritten("", sign, "", "", 0, size, false, "", "");
    assert "" + sign + "" + "" + (Zeros(0) + Written(size, 10, false)) + "" + "" == text;
    PowOne();
    code := arg.Scan(Some(text));
  }

  lemma PowOne()
    ensures Pow(1024, 0) == 1
  {
  }
}
