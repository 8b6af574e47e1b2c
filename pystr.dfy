/**
 * The pieces of Python's string semantics the sampler relies on: the `0Nd`
 * integer format, `str` ordering (what `sorted` uses on file names), and the
 * POSIX `os.path.join` / `os.path.dirname` used to build output paths.
 */
module PyStr {

  function Pow10(k: nat): (r: nat)
    ensures r >= 1
  {
    if k == 0 then 1 else 10 * Pow10(k - 1)
  }

  predicate IsDigit(c: char) { '0' <= c <= '9' }

  predicate AllDigits(s: string) { forall i :: 0 <= i < |s| ==> IsDigit(s[i]) }

  function DigitChar(d: nat): (c: char)
    requires d < 10
    ensures IsDigit(c) && c as int - '0' as int == d
  {
    ('0' as int + d) as char
  }

  /** `str(n)` for a non-negative integer: decimal digits, no leading zeros. */
  function Digits(n: nat): (s: string)
    ensures 1 <= |s| && AllDigits(s)
    ensures n < 10 <==> |s| == 1
    ensures n > 0 ==> s[0] != '0'
    decreases n
  {
    if n < 10 then [DigitChar(n)] else Digits(n / 10) + [DigitChar(n % 10)]
  }

  /** `str(n)` reads back as `n`. */
  lemma {:induction false} DigitsValue(n: nat)
    ensures DecimalValue(Digits(n)) == n
    decreases n
  {
    if n >= 10 {
      var s := Digits(n);
      assert s[..|s| - 1] == Digits(n / 10);
      DigitsValue(n / 10);
    }
  }

  function Zeros(k: nat): (s: string)
    ensures |s| == k && forall i :: 0 <= i < k ==> s[i] == '0'
  {
    if k == 0 then "" else Zeros(k - 1) + "0"
  }

  /** Leading zeros do not change the value a digit string spells. */
  lemma {:induction false} LeadingZerosValue(k: nat, d: string)
    requires AllDigits(d)
    ensures AllDigits(Zeros(k) + d)
    ensures DecimalValue(Zeros(k) + d) == DecimalValue(d)
    decreases |d|, k
  {
    var s := Zeros(k) + d;
    if d == [] {
      assert s == Zeros(k);
      if k > 0 {
        assert s[..|s| - 1] == Zeros(k - 1) + [];
        LeadingZerosValue(k - 1, []);
      }
    } else {
      assert s[..|s| - 1] == Zeros(k) + d[..|d| - 1];
      LeadingZerosValue(k, d[..|d| - 1]);
    }
  }

  /** Python's `f"{n:0{width}d}"`: zero padding goes after the sign, and a
      number wider than `width` is printed in full, never truncated. Padding
      is added only up to `width`. */
  function ZeroPad(n: int, width: nat): (s: string)
    ensures |s| >= width && |s| >= 1
    ensures n >= 0 ==> |s| == width || s[0] != '0' || s == "0"
    ensures n < 0 ==> |s| >= 2 && s[0] == '-' && (|s| == width || s[1] != '0')
  {
    if n < 0 then
      var d := Digits(-n);
      "-" + (Zeros(if width <= 1 + |d| then 0 else width - 1 - |d|) + d)
    else
      var d := Digits(n);
      Zeros(if width <= |d| then 0 else width - |d|) + d
  }

  /** The digits of the `0Nd` format spell the number: all of it for a
      non-negative one, everything after the '-' for a negative one. */
  lemma ZeroPadValue(n: int, width: nat)
    ensures n >= 0 ==> AllDigits(ZeroPad(n, width)) && DecimalValue(ZeroPad(n, width)) == n
    ensures n < 0 ==> AllDigits(ZeroPad(n, width)[1..]) && DecimalValue(ZeroPad(n, width)[1..]) == -n
  {
    var s := ZeroPad(n, width);
    if n < 0 {
      var d := Digits(-n);
      var z := Zeros(if width <= 1 + |d| then 0 else width - 1 - |d|);
      DigitsValue(-n);
      LeadingZerosValue(|z|, d);
      assert s[1..] == z + d;
    } else {
      var d := Digits(n);
      DigitsValue(n);
      LeadingZerosValue(|Zeros(if width <= |d| then 0 else width - |d|)|, d);
    }
  }

  /** Reference definition: exactly `width` decimal digits of `n`, the last
      digit last (the value modulo 10^width). */
  function FixedWidth(n: nat, width: nat): (s: string)
    ensures |s| == width && AllDigits(s)
  {
    if width == 0 then "" else FixedWidth(n / 10, width - 1) + [DigitChar(n % 10)]
  }

  /** Value of a string of decimal digits. */
  function DecimalValue(s: string): (v: nat)
    requires AllDigits(s)
    ensures s == [] ==> v == 0
  {
    if s == [] then 0
    else DecimalValue(s[..|s| - 1]) * 10 + (s[|s| - 1] as int - '0' as int)
  }

  lemma {:induction false} FixedWidthOfZero(k: nat)
    ensures FixedWidth(0, k) == Zeros(k)
  {
    if k > 0 {
      FixedWidthOfZero(k - 1);
    }
  }

  lemma {:induction false} DigitsFit(n: nat, width: nat)
    requires 1 <= width && n < Pow10(width)
    ensures |Digits(n)| <= width
    decreases n
  {
    if n >= 10 {
      assert width >= 2;
      DigitsFit(n / 10, width - 1);
    }
  }

  /** For a number that fits, the `0Nd` format is exactly `width` digits. */
  lemma {:induction false} ZeroPadFits(n: nat, width: nat)
    requires 1 <= width && n < Pow10(width)
    ensures ZeroPad(n, width) == FixedWidth(n, width)
    decreases n
  {
    DigitsFit(n, width);
    if n < 10 {
      FixedWidthOfZero(width - 1);
      assert FixedWidth(n, width) == Zeros(width - 1) + [DigitChar(n)];
    } else {
      assert width >= 2;
      ZeroPadFits(n / 10, width - 1);
      DigitsFit(n / 10, width - 1);
      var d := Digits(n / 10);
      calc {
        ZeroPad(n, width);
        Zeros(width - |d| - 1) + (d + [DigitChar(n % 10)]);
        (Zeros(width - 1 - |d|) + d) + [DigitChar(n % 10)];
        ZeroPad(n / 10, width - 1) + [DigitChar(n % 10)];
      }
    }
  }

  lemma {:induction false} FixedWidthRoundTrip(n: nat, width: nat)
    requires n < Pow10(width)
    ensures DecimalValue(FixedWidth(n, width)) == n
  {
    if width > 0 {
      var s := FixedWidth(n, width);
      assert s[..|s| - 1] == FixedWidth(n / 10, width - 1);
      FixedWidthRoundTrip(n / 10, width - 1);
    }
  }

  /** Python's `a < b` on `str`: code-point order, a proper prefix first. */
  predicate LexLess(a: string, b: string)
    decreases |a|
  {
    if a == [] then b != []
    else if b == [] then false
    else a[0] < b[0] || (a[0] == b[0] && LexLess(a[1..], b[1..]))
  }

  lemma {:induction false} LexLessIrreflexive(a: string)
    ensures !LexLess(a, a)
    decreases |a|
  {
    if a != [] {
      LexLessIrreflexive(a[1..]);
    }
  }

  lemma {:induction false} LexLessCommonPrefix(p: string, a: string, b: string)
    requires LexLess(a, b)
    ensures LexLess(p + a, p + b)
    decreases |p|
  {
    if p == [] {
      assert p + a == a && p + b == b;
    } else {
      assert (p + a)[1..] == p[1..] + a;
      assert (p + b)[1..] == p[1..] + b;
      LexLessCommonPrefix(p[1..], a, b);
    }
  }

  /** Once two equally long heads differ, whatever follows cannot change the order. */
  lemma {:induction false} LexLessExtend(a: string, b: string, x: string, y: string)
    requires |a| == |b| && LexLess(a, b)
    ensures LexLess(a + x, b + y)
    decreases |a|
  {
    if a[0] == b[0] && !(a[0] < b[0]) {
      assert (a + x)[1..] == a[1..] + x;
      assert (b + y)[1..] == b[1..] + y;
      LexLessExtend(a[1..], b[1..], x, y);
    }
  }

  /** Fixed-width decimal strings sort like the numbers they spell. */
  lemma {:induction false} FixedWidthOrder(m: nat, n: nat, width: nat)
    requires m < n < Pow10(width)
    ensures LexLess(FixedWidth(m, width), FixedWidth(n, width))
  {
    assert width > 0;
    var hm, hn := FixedWidth(m / 10, width - 1), FixedWidth(n / 10, width - 1);
    if m / 10 < n / 10 {
      FixedWidthOrder(m / 10, n / 10, width - 1);
      LexLessExtend(hm, hn, [DigitChar(m % 10)], [DigitChar(n % 10)]);
    } else {
      assert m % 10 < n % 10;
      LexLessCommonPrefix(hm, [DigitChar(m % 10)], [DigitChar(n % 10)]);
    }
  }

  /** POSIX `os.path.join(a, b)`. */
  function Join(a: string, b: string): (r: string)
  {
    if b != [] && b[0] == '/' then b
    else if a == [] || a[|a| - 1] == '/' then a + b
    else a + "/" + b
  }

  /** An absolute `b` replaces `a`; otherwise the result is `a`, then one
      '/' exactly when `a` is non-empty and does not already end in one,
      then `b`. */
  lemma JoinShape(a: string, b: string)
    ensures b != [] && b[0] == '/' ==> Join(a, b) == b
    ensures b == [] || b[0] != '/' ==>
      var r := Join(a, b);
      var sep := if a != [] && a[|a| - 1] != '/' then 1 else 0;
      |r| == |a| + sep + |b| && r[..|a|] == a && r[|a| + sep..] == b
      && (sep == 1 ==> r[|a|] == '/')
  {
    if (b == [] || b[0] != '/') && a != [] && a[|a| - 1] != '/' {
      assert Join(a, b) == a + ("/" + b);
    }
  }

  /** Joining one directory to names that are not absolute keeps their order. */
  lemma JoinKeepsOrder(dir: string, a: string, b: string)
    requires a != [] && a[0] != '/' && b != [] && b[0] != '/'
    requires LexLess(a, b)
    ensures LexLess(Join(dir, a), Join(dir, b))
  {
    if dir == [] || dir[|dir| - 1] == '/' {
      LexLessCommonPrefix(dir, a, b);
    } else {
      LexLessCommonPrefix(dir + "/", a, b);
      assert Join(dir, a) == (dir + "/") + a;
      assert Join(dir, b) == (dir + "/") + b;
    }
  }

  /** Index just past the last '/' in `p`, or 0 when there is none. */
  function AfterLastSlash(p: string): (i: nat)
    ensures i <= |p|
    ensures i > 0 ==> p[i - 1] == '/'
    ensures forall k :: i <= k < |p| ==> p[k] != '/'
  {
    if p == [] then 0
    else if p[|p| - 1] == '/' then |p|
    else AfterLastSlash(p[..|p| - 1])
  }

  function RStripSlashes(s: string): (r: string)
    ensures |r| <= |s| && r == s[..|r|]
    ensures r == [] || r[|r| - 1] != '/'
    ensures forall k :: |r| <= k < |s| ==> s[k] == '/'
  {
    if s != [] && s[|s| - 1] == '/' then RStripSlashes(s[..|s| - 1]) else s
  }

  predicate AllSlashes(s: string) { forall k :: 0 <= k < |s| ==> s[k] == '/' }

  /** POSIX `os.path.dirname(p)`: everything up to the last '/', with the
      trailing slashes removed unless that part is nothing but slashes. */
  function DirName(p: string): (r: string)
    ensures |r| <= |p| && r == p[..|r|]
    ensures forall k :: |r| <= k < |p| && p[k] == '/' ==> k < AfterLastSlash(p)
    ensures AfterLastSlash(p) == 0 <==> r == []
    ensures |r| <= AfterLastSlash(p)
    ensures forall k :: |r| <= k < AfterLastSlash(p) ==> p[k] == '/'
    ensures AllSlashes(p[..AfterLastSlash(p)]) ==> r == p[..AfterLastSlash(p)]
    ensures !AllSlashes(p[..AfterLastSlash(p)]) ==> r != [] && r[|r| - 1] != '/'
  {
    var head := p[..AfterLastSlash(p)];
    if head != [] && !AllSlashes(head) then RStripSlashes(head) else head
  }
}
