/** File names of the periodically saved frames: `out/frame_` followed by the
    frame index in decimal, zero-padded to six digits (Python's `{i:06d}`), then
    `.jpg`. The module proves that the index can be read back from the name and
    that, below one million, byte-wise (Python `str`) order of the names is the
    numeric order of the indices; from one million on, it is not. */
module FrameNames {

  const Prefix := "out/frame_"
  const Suffix := ".jpg"
  /** Minimum number of digits of the index in a file name. */
  const Width: nat := 6

  function Pow10(k: nat): (p: nat)
    ensures p >= 1
  {
    if k == 0 then 1 else 10 * Pow10(k - 1)
  }

  predicate IsDigit(c: char) {
    '0' <= c <= '9'
  }

  predicate AllDigits(s: string) {
    forall i :: 0 <= i < |s| ==> IsDigit(s[i])
  }

  function DigitValue(c: char): (d: nat)
    requires IsDigit(c)
    ensures d < 10
  {
    (c as int) - ('0' as int)
  }

  function DigitChar(d: nat): (c: char)
    requires d < 10
    ensures IsDigit(c) && DigitValue(c) == d
  {
    (('0' as int) + d) as char
  }

  /** The number a digit string denotes, read left to right as `int(s)` does. */
  function Value(s: string): nat
    requires AllDigits(s)
  {
    if |s| == 0 then 0 else 10 * Value(s[..|s| - 1]) + DigitValue(s[|s| - 1])
  }

  lemma ValueSnoc(s: string, c: char)
    requires AllDigits(s) && IsDigit(c)
    ensures AllDigits(s + [c]) && Value(s + [c]) == 10 * Value(s) + DigitValue(c)
  {
    assert (s + [c])[..|s|] == s;
  }

  /** Decimal notation of `n` without leading zeros (Python's `str(n)`). */
  function DecimalString(n: nat): (s: string)
    ensures 1 <= |s| && AllDigits(s)
    ensures Value(s) == n
    ensures s[0] == '0' ==> n == 0
    ensures |s| == 1 || s[0] != '0'
    decreases n
  {
    if n < 10 then
      [DigitChar(n)]
    else
      var front := DecimalString(n / 10);
      ValueSnoc(front, DigitChar(n % 10));
      front + [DigitChar(n % 10)]
  }

  /** `n` has at most `k` decimal digits exactly when it is below 10^k. */
  lemma {:induction false} DecimalLength(n: nat, k: nat)
    requires 1 <= k
    ensures |DecimalString(n)| <= k <==> n < Pow10(k)
    decreases n
  {
    if n >= 10 {
      if k == 1 {
        assert Pow10(1) == 10;
      } else {
        DecimalLength(n / 10, k - 1);
      }
    } else {
      PowAtLeastTen(k);
    }
  }

  lemma {:induction false} PowAtLeastTen(k: nat)
    requires 1 <= k
    ensures Pow10(k) >= 10
  {
    if k > 1 {
      PowAtLeastTen(k - 1);
    }
  }

  /** Left-pads `s` with '0' up to `width` characters; longer strings are kept. */
  function ZeroPad(s: string, width: nat): (r: string)
    ensures |r| >= width && |r| >= |s|
    ensures |s| >= width ==> |r| == |s|
    ensures |s| < width ==> |r| == width
    ensures r[|r| - |s|..] == s
    ensures forall i :: 0 <= i < |r| - |s| ==> r[i] == '0'
  {
    if |s| >= width then s else seq(width - |s|, _ => '0') + s
  }

  /** Leading zeros do not change the value of a digit string. */
  lemma {:induction false} LeadingZeros(z: string, s: string)
    requires forall i :: 0 <= i < |z| ==> z[i] == '0'
    requires AllDigits(s)
    ensures AllDigits(z + s) && Value(z + s) == Value(s)
    decreases |s|
  {
    if |s| == 0 {
      assert z + s == z;
      AllZeros(z);
    } else {
      var s' := s[..|s| - 1];
      var c := s[|s| - 1];
      LeadingZeros(z, s');
      assert z + s == (z + s') + [c];
      ValueSnoc(z + s', c);
      ValueSnoc(s', c);
      assert s == s' + [c];
    }
  }

  lemma {:induction false} AllZeros(z: string)
    requires forall i :: 0 <= i < |z| ==> z[i] == '0'
    ensures AllDigits(z) && Value(z) == 0
    decreases |z|
  {
    if |z| > 0 {
      AllZeros(z[..|z| - 1]);
    }
  }

  /** The digits of frame index `i` as they appear in its file name. */
  function FrameNumber(i: nat): (s: string)
    ensures AllDigits(s) && Value(s) == i
    ensures |s| >= Width
    ensures |s| == Width <==> i < Pow10(Width)
    ensures |s| > Width ==> s[0] != '0'
  {
    var d := DecimalString(i);
    var s := ZeroPad(d, Width);
    assert s == s[..|s| - |d|] + d;
    LeadingZeros(s[..|s| - |d|], d);
    DecimalLength(i, Width);
    s
  }

  /** The file a saved frame is written to: the prefix, the index padded to
      six digits, and the extension. */
  function FrameFileName(i: nat): (name: string)
    ensures ParseFrameFileName(name) == Some(i)
  {
    var n := FrameNumber(i);
    var name := Prefix + n + Suffix;
    assert name[|Prefix|..|name| - |Suffix|] == n;
    name
  }

  datatype Option<T> = None | Some(value: T)

  /** Reads back the frame index from a saved file name, as a directory
      listing would be interpreted; `None` for any other name. */
  function ParseFrameFileName(name: string): (r: Option<nat>)
    ensures r.Some? ==> |name| > |Prefix| + |Suffix| && name[..|Prefix|] == Prefix && name[|name| - |Suffix|..] == Suffix
  {
    if |name| > |Prefix| + |Suffix| && name[..|Prefix|] == Prefix && name[|name| - |Suffix|..] == Suffix
       && AllDigits(name[|Prefix|..|name| - |Suffix|])
    then Some(Value(name[|Prefix|..|name| - |Suffix|]))
    else None
  }

  /** Python's `<` on `str`: lexicographic order by code point, a proper
      prefix sorting first. */
  predicate LexLess(a: string, b: string)
    decreases |a|
  {
    if |a| == 0 then |b| > 0
    else if |b| == 0 then false
    else if a[0] != b[0] then a[0] < b[0]
    else LexLess(a[1..], b[1..])
  }

  lemma {:induction false} LexIrreflexive(a: string)
    ensures !LexLess(a, a)
    decreases |a|
  {
    if |a| > 0 {
      LexIrreflexive(a[1..]);
    }
  }

  /** A shared prefix does not affect the order. */
  lemma {:induction false} LexCommonPrefix(p: string, x: string, y: string)
    ensures LexLess(p + x, p + y) == LexLess(x, y)
    decreases |p|
  {
    if |p| > 0 {
      assert (p + x)[1..] == p[1..] + x;
      assert (p + y)[1..] == p[1..] + y;
      LexCommonPrefix(p[1..], x, y);
    } else {
      assert p + x == x && p + y == y;
    }
  }

  /** Two different strings of the same length are ordered by themselves,
      whatever follows them. */
  lemma {:induction false} LexDecidedByEqualLengthHead(a: string, b: string, s: string, t: string)
    requires |a| == |b| && a != b
    ensures LexLess(a + s, b + t) == LexLess(a, b)
    decreases |a|
  {
    assert |a| > 0;
    if a[0] == b[0] {
      assert a[1..] != b[1..] by {
        assert a == [a[0]] + a[1..] && b == [b[0]] + b[1..];
      }
      assert (a + s)[1..] == a[1..] + s;
      assert (b + t)[1..] == b[1..] + t;
      LexDecidedByEqualLengthHead(a[1..], b[1..], s, t);
    }
  }

  lemma LexSnoc(a: string, b: string, x: char, y: char)
    requires |a| == |b|
    ensures LexLess(a + [x], b + [y]) == (LexLess(a, b) || (a == b && x < y))
  {
    if a == b {
      LexCommonPrefix(a, [x], [y]);
      LexIrreflexive(a);
    } else {
      LexDecidedByEqualLengthHead(a, b, [x], [y]);
    }
  }

  /** On digit strings of equal length, string order is numeric order and
      string equality is numeric equality. */
  lemma {:induction false} DigitOrderIsNumericOrder(a: string, b: string)
    requires |a| == |b| && AllDigits(a) && AllDigits(b)
    ensures LexLess(a, b) <==> Value(a) < Value(b)
    ensures a == b <==> Value(a) == Value(b)
    decreases |a|
  {
    if |a| == 0 {
      assert a == b;
    } else {
      var a', x := a[..|a| - 1], a[|a| - 1];
      var b', y := b[..|b| - 1], b[|b| - 1];
      assert a == a' + [x] && b == b' + [y];
      DigitOrderIsNumericOrder(a', b');
      LexSnoc(a', b', x, y);
      ValueSnoc(a', x);
      ValueSnoc(b', y);
    }
  }

  /** Below one million, sorting the saved file names as strings sorts the
      frames by index, and different frames get different names. */
  lemma FrameFileNamesSortByIndex(i: nat, j: nat)
    requires i < Pow10(Width) && j < Pow10(Width)
    ensures LexLess(FrameFileName(i), FrameFileName(j)) <==> i < j
    ensures FrameFileName(i) == FrameFileName(j) <==> i == j
  {
    var a, b := FrameNumber(i), FrameNumber(j);
    assert |a| == Width && |b| == Width;
    assert FrameFileName(i) == Prefix + (a + Suffix);
    assert FrameFileName(j) == Prefix + (b + Suffix);
    FramedDigitsOrder(a, b);
  }

  /** Wrapping equal-length digit strings in the same prefix and suffix
      keeps their numeric order and their (in)equality. */
  lemma FramedDigitsOrder(a: string, b: string)
    requires |a| == |b| && AllDigits(a) && AllDigits(b)
    ensures LexLess(Prefix + (a + Suffix), Prefix + (b + Suffix)) <==> Value(a) < Value(b)
    ensures Prefix + (a + Suffix) == Prefix + (b + Suffix) <==> Value(a) == Value(b)
  {
    var x, y := Prefix + (a + Suffix), Prefix + (b + Suffix);
    assert x[|Prefix|..|Prefix| + |a|] == a;
    assert y[|Prefix|..|Prefix| + |b|] == b;
    LexCommonPrefix(Prefix, a + Suffix, b + Suffix);
    DigitOrderIsNumericOrder(a, b);
    if a == b {
      LexIrreflexive(a + Suffix);
    } else {
      LexDecidedByEqualLengthHead(a, b, Suffix, Suffix);
    }
  }

  /** For numbers of two or more digits, dropping the last digit keeps the
      leading one. */
  lemma LeadingDigit(n: nat)
    requires n >= 10
    ensures DecimalString(n)[0] == DecimalString(n / 10)[0]
  {
  }

  lemma PowWidth()
    ensures Pow10(Width) == 1000000 && Pow10(Width - 1) == 100000
  {
    assert Pow10(1) == 10;
    assert Pow10(2) == 100;
    assert Pow10(3) == 1000;
    assert Pow10(4) == 10000;
    assert Pow10(5) == 100000;
  }

  lemma MillionNumber()
    ensures FrameNumber(1000000)[0] == '1'
  {
    PowWidth();
    DecimalLength(1000000, Width);
    LeadingDigit(1000000);
    LeadingDigit(100000);
    LeadingDigit(10000);
    LeadingDigit(1000);
    LeadingDigit(100);
    LeadingDigit(10);
  }

  lemma NinesNumber()
    ensures FrameNumber(999990)[0] == '9'
  {
    PowWidth();
    DecimalLength(999990, Width - 1);
    LeadingDigit(999990);
    LeadingDigit(99999);
    LeadingDigit(9999);
    LeadingDigit(999);
    LeadingDigit(99);
  }

  /** Names whose digit strings differ in the first place are ordered by it,
      whatever the lengths. */
  lemma NameHeadDecides(a: string, b: string)
    requires |a| > 0 && |b| > 0 && a[0] < b[0]
    ensures LexLess(Prefix + a + Suffix, Prefix + b + Suffix)
  {
    assert Prefix + a + Suffix == Prefix + (a + Suffix);
    assert Prefix + b + Suffix == Prefix + (b + Suffix);
    LexCommonPrefix(Prefix, a + Suffix, b + Suffix);
    assert (a + Suffix)[0] == a[0] && (b + Suffix)[0] == b[0];
  }

  /** Frame names whose index digits differ in the first place are ordered
      by it. */
  lemma FirstDigitDecides(i: nat, j: nat)
    requires FrameNumber(i)[0] < FrameNumber(j)[0]
    ensures LexLess(FrameFileName(i), FrameFileName(j))
  {
    NameHeadDecides(FrameNumber(i), FrameNumber(j));
  }

  /** The six-digit width is what keeps the order: frame 1000000 is named
      `out/frame_1000000.jpg`, which sorts before `out/frame_999990.jpg`. */
  lemma SevenDigitNameSortsFirst()
    ensures Pow10(Width) == 1000000
    ensures LexLess(FrameFileName(1000000), FrameFileName(999990))
  {
    PowWidth();
    MillionNumber();
    NinesNumber();
    FirstDigitDecides(1000000, 999990);
  }
}
