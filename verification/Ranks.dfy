/**
 What the percentile plugin promises, stated on the sorted window: the nearest-rank
 percentile, with the arithmetic of its two counters.
 */
module Ranks {
  import opened Options
  import opened TreeShape

  /** What the plugin hands to its subscriber. */
  datatype Candidates = Candidates(processed: bool, left: Option<Ref>, right: Option<Ref>)

  const NO_CANDIDATES := Candidates(false, None, None)

  function Clamp(value: int): (p: int)
    ensures 10 <= p <= 90 && (10 <= value <= 90 ==> p == value)
    ensures (value >= 90 ==> p == 90) && (value <= 10 ==> p == 10)
  {
    if 90 < (if 10 < value then value else 10) then 90 else if 10 < value then value else 10
  }

  /** The number of live values below which nothing is published: the source truncates
      1/ratio + 1 or ratio + 1, where ratio is p/(100-p). */
  function Required(p: int): (n: int)
    requires 10 <= p <= 90
    ensures n >= 2
  {
    if p < 100 - p then
      QuotientPositive(100 - p, p);
      (100 - p) / p + 1
    else if 100 - p < p then
      QuotientPositive(p, 100 - p);
      p / (100 - p) + 1
    else 2
  }

  lemma QuotientPositive(a: int, b: int)
    requires 0 < b <= a
    ensures a / b >= 1
  {
    Division(a, b);
  }

  /** p/(100-p) < a/b, where x/0 is larger than every number. */
  predicate RatioBelow(p: int, a: int, b: int) {
    if b > 0 then p * b < (100 - p) * a else b == 0 && a > 0
  }

  /** a/b < p/(100-p) for a divisor that is not zero or a dividend that is not negative. */
  predicate RatioAbove(p: int, a: int, b: int) {
    if b > 0 then (100 - p) * a < p * b else b < 0 || a < 0
  }

  function Floor(p: int, n: int): int { p * n / 100 }

  function Ceil(p: int, n: int): int { (p * n + 99) / 100 }

  /** Where the balancer leaves the lower tree's size: rounded down when it has to grow,
      rounded up when it has to shrink. */
  function Settled(p: int, lower: int, n: int): int {
    if 100 * lower > p * n then Ceil(p, n) else Floor(p, n)
  }

  /** With the window sorted into `s`: below the required number nothing is published; when
      p*n/100 is a whole k, `left` is the k-th and `right` the (k+1)-th smallest; otherwise
      the one candidate given is the value at the rank p*n/100 rounded up. */
  ghost predicate NearestRank(p: int, s: seq<int>, c: Candidates)
    requires 10 <= p <= 90
  {
    var n := |s|;
    if n < Required(p) then c == NO_CANDIDATES
    else
      && c.processed
      && 1 <= Ceil(p, n) <= n
      && (c.left.Some? || c.right.Some?)
      && (c.left.Some? ==> c.left.value.key == s[Ceil(p, n) - 1])
      && (if p * n % 100 == 0
          then c.left.Some? && c.right.Some? && Ceil(p, n) < n && c.right.value.key == s[Ceil(p, n)]
          else c.left.None? != c.right.None? && (c.right.Some? ==> c.right.value.key == s[Ceil(p, n) - 1]))
  }

  /** The published candidates are right for the window, however it is sorted. */
  ghost predicate Published(p: int, window: multiset<int>, c: Candidates)
    requires 10 <= p <= 90
  {
    forall s: seq<int> :: Ascending(s) && multiset(s) == window ==> NearestRank(p, s, c)
  }

  ghost predicate Ordered(lower: multiset<int>, upper: multiset<int>) {
    forall x, y :: x in lower && y in upper ==> x <= y
  }

  // ---------------------------------------------------------------- sorted arrangements

  function Insert(x: int, s: seq<int>): (r: seq<int>)
    ensures multiset(r) == multiset(s) + multiset{x}
  {
    if s == [] then [x]
    else if x <= s[0] then [x] + s
    else
      assert s == [s[0]] + s[1..];
      [s[0]] + Insert(x, s[1..])
  }

  lemma {:induction false} HeadIsLeast(s: seq<int>, x: int)
    requires Ascending(s) && x in multiset(s)
    ensures s != [] && s[0] <= x
  {
    assert x in s;
  }

  lemma ConsAscending(x: int, s: seq<int>)
    requires Ascending(s) && (s == [] || x <= s[0])
    ensures Ascending([x] + s)
  {
  }

  lemma {:induction false} InsertAscending(x: int, s: seq<int>)
    requires Ascending(s)
    ensures Ascending(Insert(x, s))
  {
    hide Ascending;
    if s == [] || x <= s[0] {
      ConsAscending(x, s);
      assert s == [] ==> [x] + s == [x];
    } else {
      TailAscending(s);
      InsertAscending(x, s[1..]);
      ConsAscending(s[0], Insert(x, s[1..]));
    }
  }

  lemma TailAscending(s: seq<int>)
    requires Ascending(s) && s != []
    ensures Ascending(s[1..]) && (|s| > 1 ==> s[0] <= s[1..][0])
  {
  }

  /** The window scanned and sorted: the plain way to find a rank. */
  function Sort(s: seq<int>): (r: seq<int>)
    ensures Ascending(r) && multiset(r) == multiset(s)
  {
    if s == [] then [] else
      assert s == [s[0]] + s[1..];
      InsertAscending(s[0], Sort(s[1..]));
      Insert(s[0], Sort(s[1..]))
  }

  lemma TailBag(s: seq<int>)
    requires s != []
    ensures multiset(s[1..]) == multiset(s) - multiset{s[0]}
  {
    assert s == [s[0]] + s[1..];
  }

  lemma {:induction false} AscendingUnique(a: seq<int>, b: seq<int>)
    requires Ascending(a) && Ascending(b) && multiset(a) == multiset(b)
    ensures a == b
  {
    assert |multiset(a)| == |a| && |multiset(b)| == |b|;
    if a != [] {
      SameHead(a, b);
      TailBag(a);
      TailBag(b);
      AscendingUnique(a[1..], b[1..]);
    }
  }

  lemma {:induction false} SameHead(a: seq<int>, b: seq<int>)
    requires Ascending(a) && Ascending(b) && multiset(a) == multiset(b) && a != []
    ensures b != [] && a[0] == b[0]
  {
    assert a[0] in multiset(a);
    HeadIsLeast(b, a[0]);
    assert b[0] in multiset(b);
    HeadIsLeast(a, b[0]);
  }

  /** Two ordered trees laid side by side are the sorted window. */
  lemma {:induction false} TwoTreesSorted(lower: Tree, upper: Tree, s: seq<int>)
    requires Search(lower) && Search(upper) && Ordered(Bag(lower), Bag(upper))
    requires Ascending(s) && multiset(s) == Bag(lower) + Bag(upper)
    ensures s == Keys(lower) + Keys(upper)
    ensures |Keys(lower)| == |Bag(lower)| && |Keys(upper)| == |Bag(upper)|
  {
    hide Keys, Bag, Search, Ascending, Ordered, KeySet, Size, Dups;
    KeysBag(lower);
    KeysBag(upper);
    KeysAscending(lower);
    KeysAscending(upper);
    SideBySide(Keys(lower), Keys(upper));
    AscendingUnique(s, Keys(lower) + Keys(upper));
  }

  lemma SideBySide(a: seq<int>, b: seq<int>)
    requires Ascending(a) && Ascending(b) && Ordered(multiset(a), multiset(b))
    ensures Ascending(a + b)
  {
    assert forall i :: 0 <= i < |a| ==> a[i] in multiset(a);
    assert forall i :: 0 <= i < |b| ==> b[i] in multiset(b);
  }

  lemma {:induction false} LastKey(t: Tree)
    requires Search(t) && t.Fork?
    ensures |Keys(t)| > 0 && Keys(t)[|Keys(t)| - 1] == Rightmost(t).data.key
  {
    if t.right.Fork? {
      LastKey(t.right);
    } else {
      assert Keys(t.right) == [];
    }
  }

  lemma {:induction false} FirstKey(t: Tree)
    requires Search(t) && t.Fork?
    ensures |Keys(t)| > 0 && Keys(t)[0] == Leftmost(t).data.key
  {
    if t.left.Fork? {
      FirstKey(t.left);
    } else {
      assert Keys(t.left) == [];
    }
  }

  // ---------------------------------------------------------------- arithmetic of the counters

  /** Settling puts the lower tree within one of the exact share. */
  lemma SettledClose(p: int, lower: int, n: int)
    requires 10 <= p <= 90 && n >= Required(p)
    ensures var m := Settled(p, lower, n);
            && -100 < 100 * m - p * n < 100
            && 0 <= m <= n
            && (m == Floor(p, n) || m == Ceil(p, n))
            && 1 <= Ceil(p, n) <= n
            && (p * n % 100 == 0 ==> m == Ceil(p, n) && m < n)
            && (p * n % 100 != 0 ==> Ceil(p, n) == Floor(p, n) + 1 && 0 <= Floor(p, n) < n)
  {
    assert 0 < p * n < 100 * n;
  }

  lemma Division(a: int, b: int)
    requires b > 0
    ensures a == b * (a / b) + a % b
  {
  }

  /** What the required number of values amounts to, in hundredths of a rank. */
  lemma RequiredShare(p: int)
    requires 10 <= p <= 90
    ensures p >= 50 ==> p * Required(p) >= 100
    ensures p < 50 ==> 0 < p * Required(p) <= 100
    ensures p < 50 ==> (p * Required(p) == 100 <==> 100 % p == 0)
  {
    if p < 50 {
      var q := (100 - p) / p;
      Division(100 - p, p);
      assert p * Required(p) == p * q + p;
      assert 100 == p * (q + 1) + (100 - p) % p;
      Remainder(p, q + 1, (100 - p) % p);
    }
  }

  /** The required number is the greatest for which the smaller share, p or 100-p, amounts to
      no more than one rank. */
  lemma RequiredExactly(p: int)
    requires 10 <= p <= 90
    ensures var b := if p < 50 then p else 100 - p;
            b * Required(p) <= 100 < b * (Required(p) + 1)
  {
    var b := if p < 50 then p else 100 - p;
    var q := (100 - b) / b;
    assert Required(p) == q + 1;
    Division(100 - b, b);
    OneMore(b, q);
    OneMore(b, q + 1);
  }

  lemma OneMore(b: int, q: int)
    ensures b * (q + 1) == b * q + b
  {
  }

  // ---------------------------------------------------------------- what the nearest rank is

  /** How many values are below `v`, or, for `equal`, not above it. */
  function CountBelow(s: seq<int>, v: int, equal: bool): (n: nat)
    ensures n <= |s|
  {
    if s == [] then 0
    else CountBelow(s[1..], v, equal) + if s[0] < v || (equal && s[0] == v) then 1 else 0
  }

  lemma {:induction false} CountAtRank(s: seq<int>, k: nat)
    requires Ascending(s) && k < |s|
    ensures CountBelow(s, s[k], true) >= k + 1 && CountBelow(s, s[k], false) <= k
  {
    if k > 0 {
      TailAscending(s);
      CountAtRank(s[1..], k - 1);
    } else {
      NoneBelow(s, s[0]);
    }
  }

  lemma {:induction false} NoneBelow(s: seq<int>, v: int)
    requires forall i :: 0 <= i < |s| ==> v <= s[i]
    ensures CountBelow(s, v, false) == 0
  {
    if s != [] { NoneBelow(s[1..], v); }
  }

  /** Of the values, at least p in a hundred are not above the nearest rank and fewer are below
      it; when p in a hundred is a whole number of them, more are not above the next one and no
      more are below it. */
  lemma {:induction false} NearestRankMeans(p: int, s: seq<int>, c: Candidates)
    requires 10 <= p <= 90 && Ascending(s) && |s| >= Required(p) && NearestRank(p, s, c)
    ensures forall d :: (c.left == Some(d) || (c.left.None? && c.right == Some(d))) ==>
              100 * CountBelow(s, d.key, true) >= p * |s| > 100 * CountBelow(s, d.key, false)
    ensures forall d :: c.left.Some? && c.right == Some(d) ==>
              100 * CountBelow(s, d.key, true) > p * |s| >= 100 * CountBelow(s, d.key, false)
  {
    hide Ascending, CountBelow, Required;
    var k := Ceil(p, |s|);
    CountAtRank(s, k - 1);
    if k < |s| { CountAtRank(s, k); }
  }

  // ---------------------------------------------------------------- division

  /** Division with remainder is unique. */
  lemma {:induction false} Remainder(b: int, q: int, r: int)
    requires 0 <= r < b
    ensures (b * q + r) % b == r
  {
    var n := b * q + r;
    Division(n, b);
    RemainderUnique(b, q, r, n / b, n % b);
  }

  lemma {:induction false} RemainderUnique(b: int, q: int, r: int, d: int, m: int)
    requires 0 <= r < b && 0 <= m < b && b * q + r == b * d + m
    ensures r == m
  {
    var k := d - q;
    assert b * k == r - m by { Distribute(b, d, q); }
    if k >= 1 { Multiple(b, k); } else if k <= -1 { Multiple(b, -k); }
  }

  lemma Distribute(b: int, d: int, q: int)
    ensures b * (d - q) == b * d - b * q
  {
  }

  lemma Multiple(b: int, k: int)
    requires b > 0 && k >= 1
    ensures b * k >= b && b * -k <= -b
  {
  }

  /** An add compares with the lower tree's maximum.  That tree is sure to have one in
      every settled state exactly when p is at least 50 or divides 100. */
  lemma LowerTreeNeverEmpty(p: int)
    requires 10 <= p <= 90
    ensures (forall n, lower :: n >= Required(p) ==> Settled(p, lower, n) > 0)
            <==> (p >= 50 || 100 % p == 0)
  {
    RequiredShare(p);
    if p >= 50 || 100 % p == 0 {
      forall n, lower | n >= Required(p) ensures Settled(p, lower, n) > 0 {
        assert p * n >= p * Required(p);
      }
    } else {
      assert Settled(p, 0, Required(p)) == 0;
    }
  }
}
